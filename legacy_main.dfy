/** News/main.py: the first-generation, one-stage bot. Every new feed entry
    is paraphrased and offered to the admins at once; an admin's approval
    publishes it to the channel and marks its link sent in the legacy store,
    a rejection only forgets it.

    The text pipeline (`clean_text`, `limit_words`,
    `paraphrase_with_deepseek`, `process_entry`) is the same code as in
    news_parsing/parser.py and is the `Parser` module's. The outside world
    is an `Outlet`, keyed by the source URL being offered: the listing of
    the `images` folder, the index `random.choice` takes, whether the send to
    the admin at a given position went through and, when it did not,
    whether it failed with an error other than `TelegramForbiddenError`,
    which propagates. */
module LegacyMain {
  import opened Wrappers
  import opened Text
  import opened Parser
  import LegacyDatabase
  import NewsSender
  import Bot

  /** What the bot says, to the admin who acted or to every admin. */
  datatype LegacyReply =
    | NotFound | ImageMissing | ChannelFailed | Published | Rejected
    | NotAdmin | NoSites | NothingNew | SentForReview(count: nat)

  /** The decimal digits of `n`. */
  function Decimal(n: nat): string
    decreases n
  {
    if n < 10 then ["0123456789"[n]] else Decimal(n / 10) + ["0123456789"[n % 10]]
  }

  function MessageText(r: LegacyReply): string {
    match r
    case NotFound => "❌ Новость не найдена."
    case ImageMissing => "❌ Изображение не найдено, новость не отправлена."
    case ChannelFailed => "❌ Не удалось отправить новость в канал."
    case Published => "✅ Новость опубликована."
    case Rejected => "❌ Новость отклонена."
    case NotAdmin => "Ты не админ!"
    case NoSites => "Сайты не добавлены!"
    case NothingNew => "Новых новостей для публикации нет."
    case SentForReview(count) => "Отправлено " + Decimal(count) + " новостей на проверку."
  }

  /** What an admin is sent: the photo captioned with the text and its
      source, or, when that caption is too long, the bare photo followed by
      the caption as a message of its own. */
  datatype LegacyMessage =
    | CaptionedPhoto(image: string, caption: string)
    | BarePhotoThenText(image: string, text: string)

  /** The outside world of the offers of one run, keyed by source URL. */
  datatype Outlet = Outlet(imageFiles: Option<seq<string>>, choice: string -> nat,
                           delivered: (string, nat) -> bool, raises: (string, nat) -> bool)

  /** The listing succeeded and holds at least one file. */
  predicate Listed(out: Outlet) {
    out.imageFiles.Some? && out.imageFiles.value != []
  }

  /** The image `random.choice` picks for `link`: every listed file can be
      picked and nothing else. */
  function Pick(out: Outlet, link: string): (f: string)
    requires Listed(out)
    ensures f in out.imageFiles.value
    ensures out.choice(link) < |out.imageFiles.value| ==> f == out.imageFiles.value[out.choice(link)]
  {
    out.imageFiles.value[out.choice(link) % |out.imageFiles.value|]
  }

  function PickedImage(out: Outlet, link: string): string
    requires Listed(out)
  {
    NewsSender.ImagePath(Pick(out, link))
  }

  /** The admins, in order, whose send of `link` went through. */
  function Reached(admins: seq<int>, link: string, delivered: (string, nat) -> bool): (r: seq<int>)
    ensures |r| <= |admins|
    ensures forall a :: a in r ==> a in admins
  {
    if admins == [] then []
    else
      var n := |admins| - 1;
      Reached(admins[..n], link, delivered) + (if delivered(link, n) then [admins[n]] else [])
  }

  const SourceLine: string := "\n\nИсточник: "

  /** The admin caption: the text, a blank line and the source URL. */
  function AdminCaption(newsText: string, sourceUrl: string): string {
    newsText + SourceLine + sourceUrl
  }

  /** The message for `image`: a caption sent with the photo is never over
      the limit, and the whole caption reaches the admin either way. */
  function AdminMessageFor(image: string, newsText: string, sourceUrl: string): (m: LegacyMessage)
    ensures m.image == image
    ensures m.CaptionedPhoto? <==> |AdminCaption(newsText, sourceUrl)| <= NewsSender.CaptionLimit
    ensures m.CaptionedPhoto? ==> m.caption == AdminCaption(newsText, sourceUrl) && |m.caption| <= NewsSender.CaptionLimit
    ensures m.BarePhotoThenText? ==> m.text == AdminCaption(newsText, sourceUrl)
  {
    var caption := AdminCaption(newsText, sourceUrl);
    if |caption| <= NewsSender.CaptionLimit then CaptionedPhoto(image, caption) else BarePhotoThenText(image, caption)
  }

  /** What one call of `send_news_to_admin` did: it raised before storing
      anything because the image folder could not be listed or was empty,
      or it stored the item and sent `message`, reaching `reached`, and
      `raised` when a send failed with an error that is not
      `TelegramForbiddenError`, which ends the loop over the admins. */
  datatype Offer =
    | NoImage
    | Offered(message: LegacyMessage, reached: seq<int>, raised: bool)

  /** `send_photo(CHANNEL_ID, photo, caption=news_text)` goes through: the
      channel took the photo and the caption is within Telegram's limit,
      over which the send fails. */
  predicate ChannelAccepts(text: string, photoOk: bool) {
    photoOk && |text| <= NewsSender.CaptionLimit
  }

  /** Entries a feed contributes per run of `check_news_and_send`. */
  const FeedWindow: nat := 5

  lemma MulStep(a: nat, n: nat)
    ensures a * (n + 1) == a * n + a
  {
  }

  /** The dispatches of one pass over `sites`, in order: for each site the
      unsent entries among the first `limit` of its feed. */
  function AllUnsent(sites: seq<string>, feedOf: string -> seq<FeedEntry>, limit: nat,
                     sent: set<string>, paraphrase: FeedEntry -> string): (ds: seq<Dispatch>)
    ensures forall i :: 0 <= i < |ds| ==> ds[i].link !in sent
    decreases |sites|
  {
    if sites == [] then []
    else
      var n := |sites| - 1;
      AllUnsent(sites[..n], feedOf, limit, sent, paraphrase) + Unsent(Take(feedOf(sites[n]), limit), sent, paraphrase)
  }

  /** A pass offers at most `limit` entries per site. */
  lemma {:induction false} AllUnsentBound(sites: seq<string>, feedOf: string -> seq<FeedEntry>, limit: nat,
                                          sent: set<string>, paraphrase: FeedEntry -> string)
    ensures |AllUnsent(sites, feedOf, limit, sent, paraphrase)| <= limit * |sites|
    decreases |sites|
  {
    if sites != [] {
      var n := |sites| - 1;
      AllUnsentBound(sites[..n], feedOf, limit, sent, paraphrase);
      MulStep(limit, n);
    }
  }

  /** One more site appends its own dispatches. */
  lemma AllUnsentStep(sites: seq<string>, s: nat, feedOf: string -> seq<FeedEntry>, limit: nat,
                      sent: set<string>, paraphrase: FeedEntry -> string)
    requires s < |sites|
    ensures AllUnsent(sites[..s + 1], feedOf, limit, sent, paraphrase)
            == AllUnsent(sites[..s], feedOf, limit, sent, paraphrase)
               + Unsent(Take(feedOf(sites[s]), limit), sent, paraphrase)
  {
    assert sites[..s + 1][..s] == sites[..s];
    assert sites[..s + 1][s] == sites[s];
  }

  /** A run of `check_news_and_send` offers at most five entries per
      site, and never one whose link was already published. */
  lemma CheckNewsBounds(sites: seq<string>, done: nat, consumed: nat, feedOf: string -> seq<FeedEntry>,
                        sent: set<string>, paraphrase: FeedEntry -> string)
    requires done < |sites| && consumed <= |Take(feedOf(sites[done]), FeedWindow)|
    ensures var ds := AllUnsent(sites[..done], feedOf, FeedWindow, sent, paraphrase)
                      + Unsent(Take(feedOf(sites[done]), FeedWindow)[..consumed], sent, paraphrase);
            |ds| <= FeedWindow * |sites| && forall i :: 0 <= i < |ds| ==> ds[i].link !in sent
  {
    var a := AllUnsent(sites[..done], feedOf, FeedWindow, sent, paraphrase);
    var w := Take(feedOf(sites[done]), FeedWindow);
    var b := Unsent(w[..consumed], sent, paraphrase);
    AllUnsentBound(sites[..done], feedOf, FeedWindow, sent, paraphrase);
    MulStep(FeedWindow, done);
    assert forall i :: |a| <= i < |a + b| ==> (a + b)[i] == b[i - |a|];
  }

  /** With a one-entry window a site contributes its newest entry, when it
      has one and its link is unsent. */
  lemma UnsentNewest(entries: seq<FeedEntry>, sent: set<string>, paraphrase: FeedEntry -> string)
    ensures entries == [] ==> Unsent(Take(entries, 1), sent, paraphrase) == []
    ensures entries != [] ==> Unsent(Take(entries, 1), sent, paraphrase) == EntryDispatches(entries[0], sent, paraphrase)
  {
    if entries != [] {
      assert Take(entries, 1) == [entries[0]];
      assert Take(entries, 1)[..0] == [];
    }
  }

  /** The module-level dictionary `pending_news`, keyed by the md5 digest of
      the source URL. */
  class LegacyPending {
    const admins: seq<int>
    const digest: string -> string
    var pending: map<string, NewsSender.ProcessedItem>

    constructor (admins: seq<int>, digest: string -> string)
      ensures this.admins == admins && this.digest == digest && pending == map[]
    {
      this.admins := admins;
      this.digest := digest;
      pending := map[];
    }

    /** The key of an item: depends on the source URL alone. */
    function Id(url: string): string {
      digest(url)
    }

    /** The send of `link` to the admin at position `i` failed with an
        error other than `TelegramForbiddenError`. */
    predicate AdminRaises(out: Outlet, link: string, i: int) {
      0 <= i < |admins| && !out.delivered(link, i) && out.raises(link, i)
    }

    /** The position of the first admin at or after `i` whose send of
        `link` raises, or the number of admins when there is none. */
    function FirstRaiseFrom(out: Outlet, link: string, i: nat): (j: nat)
      requires i <= |admins|
      ensures i <= j <= |admins|
      ensures forall m :: i <= m < j ==> !AdminRaises(out, link, m)
      ensures j < |admins| ==> AdminRaises(out, link, j)
      decreases |admins| - i
    {
      if i == |admins| || AdminRaises(out, link, i) then i
      else FirstRaiseFrom(out, link, i + 1)
    }

    function FirstRaise(out: Outlet, link: string): (j: nat)
      ensures j <= |admins|
    {
      FirstRaiseFrom(out, link, 0)
    }

    /** Some send of `link` raises exactly when the first raising position
        is an admin's. */
    lemma FirstRaiseMeans(out: Outlet, link: string)
      ensures FirstRaise(out, link) < |admins| <==> exists i :: AdminRaises(out, link, i)
    {
    }

    /** Offering `link` raises: no image to pick, or an admin's send raises. */
    predicate CallRaises(out: Outlet, link: string) {
      !Listed(out) || FirstRaise(out, link) < |admins|
    }

    /** No offer of `ds` raises. */
    predicate NoneRaise(out: Outlet, ds: seq<Dispatch>) {
      forall d :: d in ds ==> !CallRaises(out, d.link)
    }

    /** The offers of `ds` went through in order until the last, which raised. */
    predicate RaisedAtLast(out: Outlet, ds: seq<Dispatch>) {
      ds != [] && CallRaises(out, ds[|ds| - 1].link) && NoneRaise(out, ds[..|ds| - 1])
    }

    /** `send_news_to_admin(news_text, source_url)`: picks an image, stores
        the item under the digest of the URL (replacing any earlier item of
        that URL) and sends it to every admin in order, skipping an admin
        the bot may not write to and stopping at the first other error. */
    method SendNewsToAdmin(newsText: string, sourceUrl: string, out: Outlet) returns (r: Offer)
      modifies this
      ensures r.NoImage? <==> !Listed(out)
      ensures !Listed(out) ==> pending == old(pending)
      ensures Listed(out) ==>
                pending == old(pending)[Id(sourceUrl) := NewsSender.ProcessedItem(sourceUrl, PickedImage(out, sourceUrl), newsText)]
      ensures r.Offered? ==>
                && r.message == AdminMessageFor(PickedImage(out, sourceUrl), newsText, sourceUrl)
                && r.reached == Reached(admins[..FirstRaise(out, sourceUrl)], sourceUrl, out.delivered)
                && (r.raised <==> exists i :: AdminRaises(out, sourceUrl, i))
      ensures (r.NoImage? || r.raised) <==> CallRaises(out, sourceUrl)
    {
      if !Listed(out) {
        return NoImage;
      }
      FirstRaiseMeans(out, sourceUrl);
      var image := PickedImage(out, sourceUrl);
      pending := pending[Id(sourceUrl) := NewsSender.ProcessedItem(sourceUrl, image, newsText)];
      var message := AdminMessageFor(image, newsText, sourceUrl);
      var reached := [];
      var i := 0;
      while i < |admins|
        invariant 0 <= i <= |admins|
        invariant reached == Reached(admins[..i], sourceUrl, out.delivered)
        invariant forall m :: 0 <= m < i ==> !AdminRaises(out, sourceUrl, m)
      {
        assert admins[..i + 1][..i] == admins[..i];
        if out.delivered(sourceUrl, i) {
          reached := reached + [admins[i]];
        } else if out.raises(sourceUrl, i) {
          assert AdminRaises(out, sourceUrl, i);
          return Offered(message, reached, true);
        }
        i := i + 1;
      }
      return Offered(message, reached, false);
    }

    /** The store after offering `ds` in order: each item replaces the one
        stored before under the same key. */
    function Stored(m: map<string, NewsSender.ProcessedItem>, ds: seq<Dispatch>, out: Outlet): map<string, NewsSender.ProcessedItem>
      requires Listed(out)
      decreases |ds|
    {
      if ds == [] then m
      else
        var d := ds[|ds| - 1];
        Stored(m, ds[..|ds| - 1], out)[Id(d.link) := NewsSender.ProcessedItem(d.link, PickedImage(out, d.link), d.text)]
    }

    /** After a pass every offered link has an item under its key, and
        nothing else was added. */
    lemma {:induction false} StoredKeys(m: map<string, NewsSender.ProcessedItem>, ds: seq<Dispatch>, out: Outlet)
      requires Listed(out)
      ensures forall d :: d in ds ==> Id(d.link) in Stored(m, ds, out)
      ensures forall k :: k in Stored(m, ds, out) <==> k in m || exists d :: d in ds && k == Id(d.link)
      decreases |ds|
    {
      if ds != [] {
        var n := |ds| - 1;
        StoredKeys(m, ds[..n], out);
        assert ds == ds[..n] + [ds[n]];
      }
    }

    /** Offering one more dispatch stores its item, under its key, on top
        of what was stored before; the newest item of a URL wins. */
    lemma StoredAppend(m: map<string, NewsSender.ProcessedItem>, ds: seq<Dispatch>, d: Dispatch, out: Outlet)
      requires Listed(out)
      ensures Stored(m, ds + [d], out)
              == Stored(m, ds, out)[Id(d.link) := NewsSender.ProcessedItem(d.link, PickedImage(out, d.link), d.text)]
      ensures Stored(m, ds + [d], out)[Id(d.link)] == NewsSender.ProcessedItem(d.link, PickedImage(out, d.link), d.text)
    {
      assert (ds + [d])[..|ds|] == ds;
    }

    /** Offering one more dispatch after offers that did not raise: the
        offers raise in total exactly when that one does, and then it is
        the last. */
    lemma RaiseStep(out: Outlet, attempted: seq<Dispatch>, offered: seq<Dispatch>)
      requires NoneRaise(out, attempted) && |offered| <= 1
      ensures NoneRaise(out, offered) ==> NoneRaise(out, attempted + offered)
      ensures !NoneRaise(out, offered) ==> RaisedAtLast(out, attempted + offered)
    {
      if offered != [] {
        assert offered == [offered[0]];
        assert (attempted + offered)[..|attempted|] == attempted;
      }
    }

    /** One entry as the loops over the feeds handle it: an entry whose
        link is unsent is paraphrased and offered; `raised` when that offer
        raised. */
    method OfferEntry(entry: FeedEntry, sent: set<string>, paraphrase: FeedEntry -> string, out: Outlet)
      returns (offered: seq<Dispatch>, raised: bool)
      modifies this
      ensures offered == EntryDispatches(entry, sent, paraphrase)
      ensures raised <==> !NoneRaise(out, offered)
      ensures Listed(out) ==> pending == Stored(old(pending), offered, out)
      ensures !Listed(out) ==> pending == old(pending)
    {
      offered, raised := [], false;
      var link := EntryLink(entry);
      if link !in sent {
        var newsText := paraphrase(entry);
        var r := SendNewsToAdmin(newsText, link, out);
        offered, raised := [Dispatch(newsText, link)], r.NoImage? || r.raised;
        if Listed(out) {
          StoredAppend(old(pending), [], Dispatch(newsText, link), out);
        }
      }
    }

    /** The store after offers `ds` made since it was `start`: their items
        are stored, or nothing changed when there was no image to pick. */
    predicate StoreAfter(start: map<string, NewsSender.ProcessedItem>, ds: seq<Dispatch>, out: Outlet)
      reads this
    {
      if Listed(out) then pending == Stored(start, ds, out) else pending == start
    }

    /** The offers `ds` either all went through, or went through until the
        last, which raised. */
    predicate RaiseState(out: Outlet, ds: seq<Dispatch>, raised: bool) {
      if raised then RaisedAtLast(out, ds) else NoneRaise(out, ds)
    }

    /** One turn of the loop over a window, after offers `attempted` of its
        first `i` entries that did not raise, made since the store was
        `start`. */
    method OfferNext(window: seq<FeedEntry>, i: nat, sent: set<string>, paraphrase: FeedEntry -> string, out: Outlet,
                     attempted: seq<Dispatch>, ghost start: map<string, NewsSender.ProcessedItem>)
      returns (attempted': seq<Dispatch>, raised: bool)
      requires i < |window| && attempted == Unsent(window[..i], sent, paraphrase)
      requires RaiseState(out, attempted, false) && StoreAfter(start, attempted, out)
      modifies this
      ensures attempted' == Unsent(window[..i + 1], sent, paraphrase)
      ensures RaiseState(out, attempted', raised) && StoreAfter(start, attempted', out)
    {
      UnsentStep(window, i, sent, paraphrase);
      var offered;
      offered, raised := OfferEntry(window[i], sent, paraphrase, out);
      RaiseStep(out, attempted, offered);
      attempted' := attempted + offered;
      if offered != [] {
        assert offered == [offered[0]];
        if Listed(out) {
          StoredAppend(start, attempted, offered[0], out);
        }
      } else {
        assert attempted' == attempted;
      }
    }

    /** The inner loop of `check_news_and_send` over the window of one
        feed: its unsent entries are offered in order until an offer raises;
        the first `consumed` entries were looked at. */
    method OfferWindow(window: seq<FeedEntry>, sent: set<string>, paraphrase: FeedEntry -> string, out: Outlet)
      returns (attempted: seq<Dispatch>, raised: bool, ghost consumed: nat)
      modifies this
      ensures consumed <= |window| && attempted == Unsent(window[..consumed], sent, paraphrase)
      ensures !raised ==> consumed == |window|
      ensures RaiseState(out, attempted, raised)
      ensures StoreAfter(old(pending), attempted, out)
    {
      attempted, raised := [], false;
      var i := 0;
      while i < |window| && !raised
        invariant 0 <= i <= |window|
        invariant attempted == Unsent(window[..i], sent, paraphrase)
        invariant RaiseState(out, attempted, raised) && StoreAfter(old(pending), attempted, out)
      {
        attempted, raised := OfferNext(window, i, sent, paraphrase, out, attempted, old(pending));
        i := i + 1;
      }
      consumed := i;
    }

    /** Offers made one run after another store as one run of all of them. */
    lemma {:induction false} StoredConcat(m: map<string, NewsSender.ProcessedItem>, a: seq<Dispatch>, b: seq<Dispatch>, out: Outlet)
      requires Listed(out)
      ensures Stored(m, a + b, out) == Stored(Stored(m, a, out), b, out)
      decreases |b|
    {
      if b == [] {
        assert a + b == a;
      } else {
        var n := |b| - 1;
        StoredConcat(m, a, b[..n], out);
        assert b == b[..n] + [b[n]];
        assert a + b == (a + b[..n]) + [b[n]];
        StoredAppend(m, a + b[..n], b[n], out);
        StoredAppend(Stored(m, a, out), b[..n], b[n], out);
      }
    }

    /** Offers that went through, followed by a run that raised or not,
        raised or not as that run did. */
    lemma RaiseConcat(out: Outlet, a: seq<Dispatch>, b: seq<Dispatch>, raised: bool)
      requires NoneRaise(out, a) && RaiseState(out, b, raised)
      ensures RaiseState(out, a + b, raised)
    {
      if raised {
        assert (a + b)[..|a + b| - 1] == a + b[..|b| - 1];
      }
    }

    /** The body of the outer loop of `check_news_and_send` for the site at
        position `s`, after the offers `attempted` for the sites before it,
        none of which raised. */
    method OfferSite(sites: seq<string>, s: nat, feedOf: string -> seq<FeedEntry>, sent: set<string>,
                     paraphrase: FeedEntry -> string, out: Outlet,
                     attempted: seq<Dispatch>, ghost start: map<string, NewsSender.ProcessedItem>)
      returns (attempted': seq<Dispatch>, raised: bool, ghost consumed: nat)
      requires s < |sites| && attempted == AllUnsent(sites[..s], feedOf, FeedWindow, sent, paraphrase)
      requires RaiseState(out, attempted, false) && StoreAfter(start, attempted, out)
      modifies this
      ensures !raised ==> attempted' == AllUnsent(sites[..s + 1], feedOf, FeedWindow, sent, paraphrase)
      ensures raised ==> consumed <= |Take(feedOf(sites[s]), FeedWindow)|
                         && attempted' == attempted + Unsent(Take(feedOf(sites[s]), FeedWindow)[..consumed], sent, paraphrase)
      ensures RaiseState(out, attempted', raised) && StoreAfter(start, attempted', out)
    {
      var window := Take(feedOf(sites[s]), FeedWindow);
      var offered;
      offered, raised, consumed := OfferWindow(window, sent, paraphrase, out);
      RaiseConcat(out, attempted, offered, raised);
      if Listed(out) {
        StoredConcat(start, attempted, offered, out);
      }
      attempted' := attempted + offered;
      if !raised {
        assert window[..consumed] == window;
        AllUnsentStep(sites, s, feedOf, FeedWindow, sent, paraphrase);
      }
    }

    /** `check_news_and_send`: for every stored site in order, the unsent
        entries among the first five of its feed are offered, until an
        offer raises, which ends the run. Without a raise the run offers
        exactly `AllUnsent`; with one it stopped inside the window of site
        `sitesDone`, after its first `consumed` entries. */
    method CheckNewsAndSend(db: LegacyDatabase.SiteStore, feedOf: string -> seq<FeedEntry>,
                            paraphrase: FeedEntry -> string, out: Outlet)
      returns (attempted: seq<Dispatch>, raised: bool, ghost sitesDone: nat, ghost consumed: nat)
      requires db.Valid()
      modifies this
      ensures sitesDone <= |db.sites|
      ensures !raised ==> sitesDone == |db.sites|
                          && attempted == AllUnsent(db.sites, feedOf, FeedWindow, db.sent, paraphrase)
      ensures raised ==> sitesDone < |db.sites| && consumed <= |Take(feedOf(db.sites[sitesDone]), FeedWindow)|
                         && attempted == AllUnsent(db.sites[..sitesDone], feedOf, FeedWindow, db.sent, paraphrase)
                                         + Unsent(Take(feedOf(db.sites[sitesDone]), FeedWindow)[..consumed], db.sent, paraphrase)
      ensures RaiseState(out, attempted, raised)
      ensures StoreAfter(old(pending), attempted, out)
    {
      var sites := db.GetSites();
      attempted, raised, consumed := [], false, 0;
      var s := 0;
      while s < |sites| && !raised
        invariant 0 <= s <= |sites|
        invariant !raised ==> attempted == AllUnsent(sites[..s], feedOf, FeedWindow, db.sent, paraphrase)
        invariant raised ==> s < |sites| && consumed <= |Take(feedOf(sites[s]), FeedWindow)|
                             && attempted == AllUnsent(sites[..s], feedOf, FeedWindow, db.sent, paraphrase)
                                             + Unsent(Take(feedOf(sites[s]), FeedWindow)[..consumed], db.sent, paraphrase)
        invariant RaiseState(out, attempted, raised) && StoreAfter(old(pending), attempted, out)
        decreases |sites| - s, !raised
      {
        attempted, raised, consumed := OfferSite(sites, s, feedOf, db.sent, paraphrase, out, attempted, old(pending));
        if !raised {
          s := s + 1;
        }
      }
      if !raised {
        assert sites[..s] == sites;
      }
      sitesDone := s;
    }

    /** A feed as `cmd_post_latest` handles it: an empty one is skipped,
        otherwise its newest entry is handled as `OfferEntry` says. */
    method OfferNewest(entries: seq<FeedEntry>, sent: set<string>, paraphrase: FeedEntry -> string, out: Outlet)
      returns (offered: seq<Dispatch>, raised: bool)
      modifies this
      ensures offered == Unsent(Take(entries, 1), sent, paraphrase)
      ensures RaiseState(out, offered, raised) && StoreAfter(old(pending), offered, out)
    {
      UnsentNewest(entries, sent, paraphrase);
      if entries == [] {
        return [], false;
      }
      offered, raised := OfferEntry(entries[0], sent, paraphrase, out);
      RaiseStep(out, [], offered);
      assert [] + offered == offered;
    }

    /** The body of the loop of `cmd_post_latest` for the site at position
        `s`, after the offers `attempted` for the sites before it, none of
        which raised. */
    method PostSite(sites: seq<string>, s: nat, feedOf: string -> seq<FeedEntry>, sent: set<string>,
                    paraphrase: FeedEntry -> string, out: Outlet,
                    attempted: seq<Dispatch>, ghost start: map<string, NewsSender.ProcessedItem>)
      returns (attempted': seq<Dispatch>, raised: bool)
      requires s < |sites| && attempted == AllUnsent(sites[..s], feedOf, 1, sent, paraphrase)
      requires RaiseState(out, attempted, false) && StoreAfter(start, attempted, out)
      modifies this
      ensures attempted' == AllUnsent(sites[..s + 1], feedOf, 1, sent, paraphrase)
      ensures RaiseState(out, attempted', raised) && StoreAfter(start, attempted', out)
    {
      var offered;
      offered, raised := OfferNewest(feedOf(sites[s]), sent, paraphrase, out);
      RaiseConcat(out, attempted, offered, raised);
      if Listed(out) {
        StoredConcat(start, attempted, offered, out);
      }
      attempted' := attempted + offered;
      AllUnsentStep(sites, s, feedOf, 1, sent, paraphrase);
    }

    /** The loop of `cmd_post_latest` over `sites`: the newest entry of
        every feed whose link is unsent is offered, until an offer raises,
        which happened at the site at position `sitesDone`. */
    method PostLatest(sites: seq<string>, feedOf: string -> seq<FeedEntry>, sent: set<string>,
                      paraphrase: FeedEntry -> string, out: Outlet)
      returns (attempted: seq<Dispatch>, raised: bool, ghost sitesDone: nat)
      modifies this
      ensures !raised ==> sitesDone == |sites| && attempted == AllUnsent(sites, feedOf, 1, sent, paraphrase)
      ensures raised ==> sitesDone < |sites| && attempted == AllUnsent(sites[..sitesDone + 1], feedOf, 1, sent, paraphrase)
      ensures RaiseState(out, attempted, raised) && StoreAfter(old(pending), attempted, out)
    {
      attempted, raised := [], false;
      var s := 0;
      while s < |sites| && !raised
        invariant 0 <= s <= |sites|
        invariant !raised ==> attempted == AllUnsent(sites[..s], feedOf, 1, sent, paraphrase)
        invariant raised ==> s < |sites| && attempted == AllUnsent(sites[..s + 1], feedOf, 1, sent, paraphrase)
        invariant RaiseState(out, attempted, raised) && StoreAfter(old(pending), attempted, out)
        decreases |sites| - s, !raised
      {
        attempted, raised := PostSite(sites, s, feedOf, sent, paraphrase, out, attempted, old(pending));
        if !raised {
          s := s + 1;
        }
      }
      if !raised {
        assert sites[..s] == sites;
      }
      sitesDone := s;
    }

    /** `cmd_post_latest`: for an admin, with sites stored, the newest entry
        of every feed whose link is unsent is offered, and the admin is told
        how many were. An offer that raises ends the handler without a
        reply. */
    method CmdPostLatest(db: LegacyDatabase.SiteStore, userId: int, feedOf: string -> seq<FeedEntry>,
                         paraphrase: FeedEntry -> string, out: Outlet)
      returns (reply: Option<LegacyReply>, attempted: seq<Dispatch>, ghost sitesDone: nat)
      requires db.Valid()
      modifies this
      ensures !Bot.IsAdmin(admins, userId) ==> reply == Some(NotAdmin) && attempted == [] && pending == old(pending)
      ensures Bot.IsAdmin(admins, userId) && db.sites == [] ==> reply == Some(NoSites) && attempted == [] && pending == old(pending)
      ensures Bot.IsAdmin(admins, userId) && db.sites != [] && reply.Some? ==>
                && attempted == AllUnsent(db.sites, feedOf, 1, db.sent, paraphrase)
                && NoneRaise(out, attempted)
                && reply.value == (if attempted == [] then NothingNew else SentForReview(|attempted|))
      ensures reply.Some? && reply.value.SentForReview? ==> reply.value.count <= |db.sites|
      ensures Bot.IsAdmin(admins, userId) && db.sites != [] && reply.None? ==>
                && sitesDone < |db.sites|
                && attempted == AllUnsent(db.sites[..sitesDone + 1], feedOf, 1, db.sent, paraphrase)
                && RaisedAtLast(out, attempted)
      ensures StoreAfter(old(pending), attempted, out)
    {
      attempted, sitesDone := [], 0;
      if !Bot.IsAdmin(admins, userId) {
        return Some(NotAdmin), attempted, sitesDone;
      }
      var sites := db.GetSites();
      if sites == [] {
        return Some(NoSites), attempted, sitesDone;
      }
      var raised;
      attempted, raised, sitesDone := PostLatest(sites, feedOf, db.sent, paraphrase, out);
      if raised {
        return None, attempted, sitesDone;
      }
      AllUnsentBound(sites, feedOf, 1, db.sent, paraphrase);
      reply := Some(if |attempted| == 0 then NothingNew else SentForReview(|attempted|));
    }

    /** `approve_news`: an unknown id is answered "not found", a missing
        image file and a failed channel send are reported; in these cases
        nothing changes. Otherwise the link is marked sent, the item is
        dropped and every admin is told it was published. */
    method ApproveNews(db: LegacyDatabase.SiteStore, newsId: string, imageExists: string -> bool, photoOk: bool)
      returns (reply: Option<LegacyReply>, broadcast: Option<LegacyReply>)
      requires db.Valid()
      modifies this, db
      ensures db.Valid() && db.sites == old(db.sites)
      ensures newsId !in old(pending) ==>
                reply == Some(NotFound) && broadcast == None && pending == old(pending) && db.sent == old(db.sent)
      ensures newsId in old(pending) && !imageExists(old(pending)[newsId].image) ==>
                reply == Some(ImageMissing) && broadcast == None && pending == old(pending) && db.sent == old(db.sent)
      ensures newsId in old(pending) && imageExists(old(pending)[newsId].image)
              && !ChannelAccepts(old(pending)[newsId].text, photoOk) ==>
                reply == Some(ChannelFailed) && broadcast == None && pending == old(pending) && db.sent == old(db.sent)
      ensures newsId in old(pending) && imageExists(old(pending)[newsId].image)
              && ChannelAccepts(old(pending)[newsId].text, photoOk) ==>
                && reply == None && broadcast == Some(Published)
                && pending == old(pending) - {newsId}
                && db.sent == old(db.sent) + {old(pending)[newsId].url}
    {
      if newsId !in pending {
        return Some(NotFound), None;
      }
      var data := pending[newsId];
      if !imageExists(data.image) {
        return Some(ImageMissing), None;
      }
      if !ChannelAccepts(data.text, photoOk) {
        return Some(ChannelFailed), None;
      }
      db.MarkNewsSent(data.url);
      pending := pending - {newsId};
      return None, Some(Published);
    }

    /** `reject_news`: the item is dropped, whether or not it was there;
        the admins are told only when the button's message could be
        deleted, since both happen in one swallowed `try`. */
    method RejectNews(newsId: string, deleted: bool) returns (broadcast: Option<LegacyReply>)
      modifies this
      ensures pending == old(pending) - {newsId} && newsId !in pending
      ensures broadcast == (if deleted then Some(Rejected) else None)
    {
      pending := pending - {newsId};
      broadcast := if deleted then Some(Rejected) else None;
    }
  }
}
