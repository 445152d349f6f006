/** news_parsing/site.py: the older posting path. The login and the form
    post are network calls; their outcomes arrive as `loginOk` and as the
    response (`None` when posting raised). `str.lower` is the function
    `lower`. */
module Site {
  import opened Text
  import opened Wrappers

  /** `extract_title_and_body`: the stripped text split at its first blank
      line, both parts stripped; no blank line means all title. */
  function ExtractTitleAndBody(text: string): (tb: (string, string))
    ensures IsStripped(tb.0) && IsStripped(tb.1)
    ensures !Contains(Strip(text), "\n\n") ==> tb == (Strip(text), "")
  {
    var parts := SplitOnce(Strip(text), "\n\n");
    var title := Strip(parts[0]);
    var body := if |parts| > 1 then Strip(parts[1]) else "";
    StripStripped(Strip(text));
    (title, body)
  }

  /** The text is split, not rewritten: every word of it lands in the title
      or in the body, in order. */
  lemma ExtractTitleAndBodyWords(text: string)
    ensures Words(ExtractTitleAndBody(text).0) + Words(ExtractTitleAndBody(text).1) == Words(text)
  {
    var t := Strip(text);
    var tb := ExtractTitleAndBody(text);
    assert Words(t) == Words(text) by { WordsStrip(text); }
    if Contains(t, "\n\n") {
      var parts := SplitOnce(t, "\n\n");
      assert tb == (Strip(parts[0]), Strip(parts[1]));
      SplitAtBlankLineWords(t);
    } else {
      assert tb == (t, "");
    }
  }

  /** A title and a body "separated by an empty line" come back as they
      were: the title stripped, non-empty and without a blank line, the body
      stripped. */
  lemma ExtractTitleAndBodyRoundTrip(title: string, body: string)
    requires title != [] && IsStripped(title) && !Contains(title, "\n\n")
    requires IsStripped(body)
    ensures ExtractTitleAndBody(title + "\n\n" + body) == (title, body)
  {
    var text := title + "\n\n" + body;
    StripStripped(title);
    if body == [] {
      assert text == title + "\n\n";
      assert Strip(text) == title by {
        assert LStrip(text) == text;
        assert text[..|text| - 1] == title + "\n";
        assert (title + "\n")[..|title|] == title;
        assert RStrip(text) == RStrip(title + "\n") == RStrip(title);
      }
    } else {
      assert IsStripped(text);
      StripStripped(text);
      forall j | |title| - 2 < j < |title| ensures !OccursAt(text, "\n\n", j) {
        assert text[j] == title[|title| - 1];
        if 0 <= j && j + 2 <= |text| {
          assert text[j..j + 2][0] == text[j];
        }
      }
      SplitOnceJoin(title, "\n\n", body);
      StripStripped(body);
    }
  }

  const SeoDescriptionLimit: nat := 160
  const KeywordCount: nat := 5

  /** The form fields of site.py lines 45-57 (the image is left out). */
  datatype NewsForm = NewsForm(title: string, subtitle: string, description: string,
                               seoTitle: string, seoDescription: string, seoKeywords: string,
                               seoUrl: string)

  /** The form for `newsText`: title, subtitle and SEO title are the title;
      the SEO description is the first 160 characters of the body; the
      keywords are the first five words of the title joined by ", ". */
  function FormFor(newsText: string): (f: NewsForm)
    ensures (f.title, f.description) == ExtractTitleAndBody(newsText)
    ensures f.subtitle == f.title && f.seoTitle == f.title
    ensures f.seoDescription <= f.description && |f.seoDescription| <= SeoDescriptionLimit
    ensures |f.description| <= SeoDescriptionLimit ==> f.seoDescription == f.description
    ensures |f.description| > SeoDescriptionLimit ==> |f.seoDescription| == SeoDescriptionLimit
    ensures f.seoKeywords == Join(Take(Words(f.title), KeywordCount), ", ")
    ensures f.seoUrl == ""
  {
    var tb := ExtractTitleAndBody(newsText);
    var title, body := tb.0, tb.1;
    NewsForm(title, title, body, title, Take(body, SeoDescriptionLimit),
             Join(Take(Words(title), KeywordCount), ", "), "")
  }

  /** The keywords split back on ", " into the title's first words, at
      most five of them. */
  lemma KeywordsSplitBack(newsText: string)
    requires Words(FormFor(newsText).title) != []
    ensures var ws := Take(Words(FormFor(newsText).title), KeywordCount);
            SplitOn(FormFor(newsText).seoKeywords, ", ") == ws && 1 <= |ws| <= KeywordCount
  {
    KeywordsOf(FormFor(newsText).title);
  }

  /** The first five words of a title, joined by ", ", split back. */
  lemma KeywordsOf(title: string)
    requires Words(title) != []
    ensures var ws := Take(Words(title), KeywordCount);
            SplitOn(Join(ws, ", "), ", ") == ws && 1 <= |ws| <= KeywordCount
  {
    var words := Words(title);
    var ws := Take(words, KeywordCount);
    forall i | 0 <= i < |ws| ensures IsWord(ws[i]) {
      assert ws[i] == words[i];
    }
    var sep := ", ";
    assert |sep| == 2 && sep[0] == ',' && sep[1] == ' ';
    SplitOnJoinWords(ws, sep);
  }

  /** The response to the form post. */
  datatype HttpResponse = HttpResponse(status: int, text: string)

  /** `post_news_to_site`: true exactly when the login succeeded and the
      post answered 200 with "успешно" or "success" in its lower-cased body;
      nothing is posted after a failed login. */
  method PostNewsToSite(newsText: string, loginOk: bool, response: Option<HttpResponse>,
                        lower: string -> string)
    returns (ok: bool, posted: Option<NewsForm>)
    ensures ok <==> && loginOk && response.Some? && response.value.status == 200
                    && (Contains(lower(response.value.text), "успешно")
                        || Contains(lower(response.value.text), "success"))
    ensures posted.Some? <==> loginOk
    ensures posted.Some? ==> posted.value == FormFor(newsText)
  {
    if !loginOk {
      return false, None;
    }
    posted := Some(FormFor(newsText));
    ok := false;
    if response.Some? {
      if response.value.status == 200 {
        var text := lower(response.value.text);
        if Contains(text, "успешно") || Contains(text, "success") {
          ok := true;
        }
      }
    }
  }
}
