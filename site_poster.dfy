/** news_parsing/site_poster.py: posting an approved item to the CMS admin
    panel. The login, the page fetch and the form post are network calls; an
    `Exchange` holds their outcomes: whether the login succeeded, the parsed
    create page (`None` when fetching it raised) and the response to the
    post (`None` when posting raised). `str.lower` is the function `lower`. */
module SitePoster {
  import opened Text
  import opened Wrappers

  // ---------------------------------------------------------------------
  // extract_title_and_body

  /** The longest title kept. */
  const TitleLimit: nat := 255

  /** The split of site_poster.py lines 49-65, before whitespace is
      collapsed: at the first blank line when there is one, else after the
      first line; a single line is all title. Both parts are stripped. */
  function SplitTitleAndBody(text: string): (tb: (string, string))
    ensures IsStripped(tb.0) && IsStripped(tb.1)
  {
    var t := Strip(text);
    if Contains(t, "\n\n") then
      var parts := SplitOnce(t, "\n\n");
      (Strip(parts[0]), Strip(parts[1]))
    else
      var lines := SplitOn(t, "\n");
      if |lines| > 1 then (Strip(lines[0]), Strip(Join(lines[1..], "\n")))
      else
        StripStripped(t);
        (t, "")
  }

  /** A text without line breaks is all title. */
  lemma SplitTitleAndBodySingleLine(text: string)
    requires !Contains(Strip(text), "\n")
    ensures SplitTitleAndBody(text) == (Strip(text), "")
  {
    var t := Strip(text);
    assert !Contains(t, "\n\n") by {
      if Contains(t, "\n\n") {
        assert "\n" + "\n" == "\n\n";
        ContainsPrefix(t, "\n", "\n");
      }
    }
    assert |SplitOn(t, "\n")| == 1;
  }

  /** The split neither loses, merges nor reorders words. */
  lemma SplitTitleAndBodyWords(text: string)
    ensures Words(SplitTitleAndBody(text).0) + Words(SplitTitleAndBody(text).1) == Words(text)
  {
    var t := Strip(text);
    WordsStrip(text);
    if Contains(t, "\n\n") {
      SplitAtBlankLineWords(t);
    } else {
      SplitAtLineWords(t);
    }
  }

  lemma SplitAtLineWords(t: string)
    ensures var lines := SplitOn(t, "\n");
            |lines| > 1 ==> Words(Strip(lines[0])) + Words(Strip(Join(lines[1..], "\n"))) == Words(t)
  {
    var lines := SplitOn(t, "\n");
    if |lines| > 1 {
      var rest := Join(lines[1..], "\n");
      JoinSplitOn(t, "\n");
      assert Join(lines, "\n") == lines[0] + "\n" + rest;
      WordsStrip(lines[0]);
      WordsStrip(rest);
      WordsAroundSpace(lines[0], "\n", rest);
    }
  }

  /** `extract_title_and_body`: every whitespace run becomes one space, so
      neither part holds a line break or two whitespace characters in a
      row; the title is cut to 255 characters, and the body stays stripped. */
  function ExtractTitleAndBody(text: string): (tb: (string, string))
    ensures |tb.0| <= TitleLimit
    ensures Collapsed(tb.0) && Collapsed(tb.1)
    ensures '\n' !in tb.0 && '\n' !in tb.1
    ensures IsStripped(tb.1)
  {
    var split := SplitTitleAndBody(text);
    var title := Take(CollapseSpaces(split.0), TitleLimit);
    var body := CollapseSpaces(split.1);
    CollapsedPrefix(CollapseSpaces(split.0), TitleLimit);
    CollapsedNoNewline(title);
    CollapsedNoNewline(body);
    CollapseStripped(split.1);
    (title, body)
  }

  /** Apart from the cut to 255 characters, extraction keeps exactly the
      words of the text: the title's, then the body's. */
  lemma ExtractTitleAndBodyWords(text: string)
    requires |CollapseSpaces(SplitTitleAndBody(text).0)| <= TitleLimit
    ensures Words(ExtractTitleAndBody(text).0) + Words(ExtractTitleAndBody(text).1) == Words(text)
  {
    var split := SplitTitleAndBody(text);
    SplitTitleAndBodyWords(text);
    WordsCollapse(split.0);
    WordsCollapse(split.1);
  }

  /** Stripping `title + "\n\n"` gives back a stripped, non-empty title. */
  lemma StripTrailingBlankLine(title: string)
    requires title != [] && IsStripped(title)
    ensures Strip(title + "\n\n") == title
  {
    var text := title + "\n\n";
    assert LStrip(text) == text;
    assert text[..|text| - 1] == title + "\n";
    assert (title + "\n")[..|title|] == title;
    assert RStrip(text) == RStrip(title + "\n") == RStrip(title);
    StripStripped(title);
  }

  /** Splitting `title + "\n\n" + body` where the title holds no line break
      gives back the title and the body. */
  lemma SplitTitleAndBodyJoin(title: string, body: string)
    requires title != [] && IsStripped(title) && '\n' !in title
    requires body != [] && IsStripped(body)
    ensures SplitTitleAndBody(title + "\n\n" + body) == (title, body)
  {
    var text := title + "\n\n" + body;
    assert IsStripped(text);
    StripStripped(text);
    NotContainsHead(title, "\n\n");
    forall j | |title| - 2 < j < |title| ensures !OccursAt(text, "\n\n", j) {
      assert text[j] == title[|title| - 1];
      if 0 <= j && j + 2 <= |text| {
        assert text[j..j + 2][0] == text[j];
      }
    }
    SplitOnceJoin(title, "\n\n", body);
    assert OccursAt(text, "\n\n", |title|) by {
      assert text[|title|..|title| + 2] == "\n\n";
    }
    StripStripped(title);
    StripStripped(body);
  }

  /** A stripped, collapsed title of at most 255 characters and a stripped,
      collapsed body, separated by a blank line, are extracted unchanged. */
  lemma ExtractTitleAndBodyRoundTrip(title: string, body: string)
    requires title != [] && IsStripped(title) && Collapsed(title) && |title| <= TitleLimit
    requires IsStripped(body) && Collapsed(body)
    ensures ExtractTitleAndBody(title + "\n\n" + body) == (title, body)
  {
    CollapsedNoNewline(title);
    if body == [] {
      assert title + "\n\n" + body == title + "\n\n";
      StripTrailingBlankLine(title);
      NotContainsHead(title, "\n");
      SplitTitleAndBodySingleLine(title + "\n\n");
    } else {
      SplitTitleAndBodyJoin(title, body);
    }
    CollapseCollapsed(title);
    CollapseCollapsed(body);
  }

  // ---------------------------------------------------------------------
  // the fields of the create form (site_poster.py lines 150-155)

  const SubtitleLimit: nat := 100
  const SeoTitleLimit: nat := 60
  const SeoDescriptionLimit: nat := 160
  const SeoKeywords := "агро, сельское хозяйство, новости, АПК"

  /** The text fields sent to the CMS. */
  datatype NewsForm = NewsForm(title: string, subtitle: string, description: string,
                               seoTitle: string, seoDescription: string, seoKeywords: string)

  /** The subtitle: the body when it has at most 100 characters, else its
      first 100 characters and "...". */
  function Subtitle(body: string): (subtitle: string)
    ensures |subtitle| <= SubtitleLimit + 3
    ensures |body| <= SubtitleLimit ==> subtitle == body
    ensures |body| > SubtitleLimit ==>
              |subtitle| == SubtitleLimit + 3 && subtitle[..SubtitleLimit] == body[..SubtitleLimit]
              && subtitle[SubtitleLimit..] == "..."
  {
    if |body| > SubtitleLimit then body[..SubtitleLimit] + "..." else body
  }

  /** The form for `newsText`: the extracted title and body, the subtitle,
      the title's first 60 characters, the first 160 characters of the body
      (of the title when the body is empty) and fixed keywords. */
  function FormFor(newsText: string): (f: NewsForm)
    ensures (f.title, f.description) == ExtractTitleAndBody(newsText)
    ensures f.seoTitle <= f.title && |f.seoTitle| <= SeoTitleLimit
    ensures |f.seoTitle| == if |f.title| <= SeoTitleLimit then |f.title| else SeoTitleLimit
    ensures |f.title| <= SeoTitleLimit ==> f.seoTitle == f.title
    ensures var source := if f.description != "" then f.description else f.title;
            && f.seoDescription <= source
            && |f.seoDescription| == if |source| <= SeoDescriptionLimit then |source| else SeoDescriptionLimit
    ensures |f.seoDescription| <= SeoDescriptionLimit
    ensures f.subtitle == Subtitle(f.description) && |f.subtitle| <= SubtitleLimit + 3
    ensures f.seoKeywords == SeoKeywords
  {
    var tb := ExtractTitleAndBody(newsText);
    var title, body := tb.0, tb.1;
    var seoDescription := if body != "" then Take(body, SeoDescriptionLimit) else Take(title, SeoDescriptionLimit);
    NewsForm(title, Subtitle(body), body, Take(title, SeoTitleLimit), seoDescription, SeoKeywords)
  }

  // ---------------------------------------------------------------------
  // get_csrf_token_for_create

  /** A form of the create page: its `action` attribute ("" when absent)
      and the value of its `_token` input, if it has one. */
  datatype Form = Form(action: string, token: Option<string>)

  /** The create page as fetched: its status code and its forms. */
  datatype CreatePage = CreatePage(status: int, forms: seq<Form>)

  /** The action leads to the logout route. */
  predicate IsLogoutAction(action: string) {
    Contains(action, "logout") || StartsWith(action, "/admin/logout")
  }

  /** Index of the first form whose action is not a logout, or `|forms|`. */
  function FirstNonLogout(forms: seq<Form>): (i: nat)
    ensures i <= |forms|
    ensures i < |forms| ==> !IsLogoutAction(forms[i].action)
    ensures forall j :: 0 <= j < i ==> IsLogoutAction(forms[j].action)
  {
    if forms == [] then 0
    else if !IsLogoutAction(forms[0].action) then 0
    else 1 + FirstNonLogout(forms[1..])
  }

  /** The form chosen: the first that is not a logout form, else the first
      form, and none when the page has no form. */
  function ChosenForm(forms: seq<Form>): (target: Option<nat>)
    ensures target.None? <==> forms == []
    ensures target.Some? ==> target.value < |forms|
    ensures target.Some? && !IsLogoutAction(forms[target.value].action) ==>
              forall j :: 0 <= j < target.value ==> IsLogoutAction(forms[j].action)
    ensures target.Some? && IsLogoutAction(forms[target.value].action) ==>
              target.value == 0 && forall j :: 0 <= j < |forms| ==> IsLogoutAction(forms[j].action)
  {
    if forms == [] then None
    else if FirstNonLogout(forms) < |forms| then Some(FirstNonLogout(forms))
    else Some(0)
  }

  /** The loop of site_poster.py lines 101-111. */
  method SelectForm(forms: seq<Form>) returns (target: Option<nat>)
    ensures target == ChosenForm(forms)
  {
    target := None;
    var i := 0;
    while i < |forms|
      invariant 0 <= i <= |forms|
      invariant forall j :: 0 <= j < i ==> IsLogoutAction(forms[j].action)
    {
      var action := forms[i].action;
      if !Contains(action, "logout") && !StartsWith(action, "/admin/logout") {
        target := Some(i);
        break;
      }
      i := i + 1;
    }
    if target.None? && forms != [] {
      target := Some(0);
    }
  }

  /** The token `get_csrf_token_for_create` returns for a fetched page. */
  function CsrfToken(page: Option<CreatePage>): (token: Option<string>)
    ensures token.Some? ==> page.Some? && page.value.status == 200 && page.value.forms != []
    ensures token.Some? ==> exists i :: 0 <= i < |page.value.forms| && page.value.forms[i].token == token
    ensures page.None? || page.value.status != 200 || page.value.forms == [] ==> token.None?
    ensures page.Some? && page.value.status == 200 && page.value.forms != [] ==>
              token == page.value.forms[ChosenForm(page.value.forms).value].token
  {
    if page.None? || page.value.status != 200 then None
    else
      match ChosenForm(page.value.forms)
      case None => None
      case Some(i) => page.value.forms[i].token
  }

  /** `get_csrf_token_for_create`: `None` when the fetch raised, the status
      is not 200, the page has no form or the chosen form has no token. */
  method GetCsrfTokenForCreate(page: Option<CreatePage>) returns (token: Option<string>)
    ensures token == CsrfToken(page)
  {
    if page.None? {
      return None;
    }
    if page.value.status != 200 {
      return None;
    }
    var target := SelectForm(page.value.forms);
    if target.None? {
      return None;
    }
    token := page.value.forms[target.value].token;
  }

  // ---------------------------------------------------------------------
  // post_news_to_site_simple

  /** The response to the form post. */
  datatype HttpResponse = HttpResponse(status: int, text: string)

  const SuccessIndicators: seq<string> := ["успех", "success", "создан", "created"]
  const ErrorIndicators: seq<string> := ["error", "ошибка", "exception", "invalid"]

  /** One of `indicators` occurs in `text`. */
  predicate AnyIndicator(text: string, indicators: seq<string>) {
    exists k :: 0 <= k < |indicators| && Contains(text, indicators[k])
  }

  /** The verdict on the post's response (site_poster.py lines 216-256). */
  function CreateSucceeded(response: HttpResponse, lower: string -> string): (ok: bool)
    ensures response.status == 500 ==> !ok
    ensures response.status == 302 ==> ok
    ensures response.status != 200 && response.status != 302 ==> !ok
    ensures response.status == 200 && AnyIndicator(lower(response.text), SuccessIndicators) ==> ok
    ensures response.status == 200 && !AnyIndicator(lower(response.text), ErrorIndicators) ==> ok
    ensures response.status == 200 && ok ==>
              AnyIndicator(lower(response.text), SuccessIndicators) || !AnyIndicator(lower(response.text), ErrorIndicators)
  {
    if response.status == 500 then false
    else if response.status == 200 || response.status == 302 then
      if response.status == 302 then true
      else
        var text := lower(response.text);
        if AnyIndicator(text, SuccessIndicators) then true
        else !AnyIndicator(text, ErrorIndicators)
    else false
  }

  /** What the network calls of one post produce. */
  datatype Exchange = Exchange(loginOk: bool, createPage: Option<CreatePage>, response: Option<HttpResponse>)

  /** The exchange ends in a post the site accepted: the login succeeded, a
      non-empty token was found and the response counts as a success. */
  predicate SiteAccepted(ex: Exchange, lower: string -> string) {
    && ex.loginOk
    && CsrfToken(ex.createPage).Some? && CsrfToken(ex.createPage).value != ""
    && ex.response.Some? && CreateSucceeded(ex.response.value, lower)
  }

  /** `post_news_to_site_simple` (and `post_news_to_site`, which only calls
      it): false as soon as the login fails or no non-empty token is found,
      before anything is posted; otherwise the form built from the text is
      posted and the response decides. */
  method PostNewsToSiteSimple(newsText: string, ex: Exchange, lower: string -> string)
    returns (ok: bool, posted: Option<NewsForm>)
    ensures ok <==> && ex.loginOk
                    && CsrfToken(ex.createPage).Some? && CsrfToken(ex.createPage).value != ""
                    && ex.response.Some? && CreateSucceeded(ex.response.value, lower)
    ensures posted.Some? <==> ex.loginOk && CsrfToken(ex.createPage).Some? && CsrfToken(ex.createPage).value != ""
    ensures posted.Some? ==> posted.value == FormFor(newsText)
    ensures ok == SiteAccepted(ex, lower)
  {
    if !ex.loginOk {
      return false, None;
    }
    var csrfToken := GetCsrfTokenForCreate(ex.createPage);
    if csrfToken.None? || csrfToken.value == "" {
      return false, None;
    }
    posted := Some(FormFor(newsText));
    if ex.response.None? {
      return false, posted;
    }
    ok := CreateSucceeded(ex.response.value, lower);
  }
}
