/** news_parsing/bot.py: the moderation handlers. A raw item is approved for
    rewriting or rejected; a rewritten item is published to the Telegram
    channel, to the site, to both, or rejected; `/addsite` adds a feed.

    The handlers act on the two pending maps (`NewsSender.Pending`) and on
    the SQLite store (`Database.NewsStore`). What the outside world answers
    arrives as parameters: the rewrite DeepSeek returns (`rewrite`), the
    outcome of each delivery (`NewsSender.Outbox`), whether an image file
    exists (`imageExists`), whether a channel send succeeded, and the
    exchange with the site (`SitePoster.Exchange`). The message each handler
    answers with is its `reply`; the message it sends to every admin is its
    `broadcast` (a failed send to one admin is swallowed and changes
    nothing). */
module Bot {
  import opened Wrappers
  import opened Text
  import NewsSender
  import Database
  import SitePoster

  /** The messages the handlers send. */
  datatype Reply =
    | NotFound | SentToRewrite | RawRejected | ImageMissing | ChannelFailed
    | PublishedTelegram | PublishedSite | SiteFailed
    | PublishedBoth | PublishedSiteOnly | PublishedTelegramOnly | BothFailed
    | ProcessedRejected | NotAdmin | Usage | BadUrl | FeedAdded(url: string)

  /** The text of each message, as bot.py writes it. */
  function MessageText(r: Reply): string {
    match r
    case NotFound => "❌ Новость не найдена."
    case SentToRewrite => "✅ Новость отправлена на обработку DeepSeek"
    case RawRejected => "❌ Сырая новость отклонена."
    case ImageMissing => "❌ Изображение не найдено, новость не отправлена."
    case ChannelFailed => "❌ Не удалось отправить новость в канал."
    case PublishedTelegram => "✅ Новость опубликована в Telegram."
    case PublishedSite => "🌐 Новость опубликована на сайте!"
    case SiteFailed => "❌ Ошибка при публикации на сайте."
    case PublishedBoth => "🚀 Новость опубликована в Telegram и на сайте!"
    case PublishedSiteOnly => "🌐 Новость опубликована на сайте (Telegram не удалось)!"
    case PublishedTelegramOnly => "✅ Новость опубликована в Telegram (сайт не удалось)!"
    case BothFailed => "⚠\U{FE0F} Ошибка при публикации (проверь лог)."
    case ProcessedRejected => "❌ Обработанная новость отклонена."
    case NotAdmin => "❌ Ты не админ!"
    case Usage => "❌ Укажи ссылку на RSS\nНапример: `/addsite https://example.com/rss`"
    case BadUrl => "❌ Неверный формат ссылки. Должна начинаться с http:// или https://"
    case FeedAdded(url) => "✅ RSS-лента добавлена:\n`" + url + "`"
  }

  /** `is_admin`: membership in `ADMINS`. */
  predicate IsAdmin(admins: seq<int>, userId: int) {
    userId in admins
  }

  // ---------------------------------------------------------------------
  // Raw items

  /** `approve_raw_news`: an unknown id is answered "not found" and nothing
      changes. Otherwise the item's title and text are rewritten, the
      rewrite goes to the admins as a processed item of the same URL (stored
      in the processed map unless the images folder is empty), and the raw
      entry is removed in every case. */
  method ApproveRawNews(p: NewsSender.Pending, newsId: string, rewrite: (string, string) -> string,
                        out: NewsSender.Outbox)
    returns (reply: Reply, rounds: seq<NewsSender.Round>)
    modifies p
    ensures newsId !in old(p.raw) ==>
              && reply == NotFound && rounds == []
              && p.raw == old(p.raw) && p.processed == old(p.processed)
    ensures newsId in old(p.raw) ==>
              var item := old(p.raw)[newsId];
              && reply == SentToRewrite
              && p.raw == old(p.raw) - {newsId}
              && (!NewsSender.HasImages(out) ==> p.processed == old(p.processed) && rounds == [])
              && (NewsSender.HasImages(out) ==>
                    && |rounds| == NewsSender.Attempts(p.admins, out.delivered)
                    && p.processed == old(p.processed)[p.ProcessedId(item.url) :=
                         NewsSender.ProcessedItem(item.url, NewsSender.ImageFor(out, |rounds| - 1),
                                                  rewrite(item.title, item.text))])
  {
    if newsId !in p.raw {
      return NotFound, [];
    }
    var data := p.raw[newsId];
    var processedText := rewrite(data.title, data.text);
    var sent;
    rounds, sent := p.SendProcessedNewsToAdmin(processedText, data.url, data.title, out);
    p.RemoveFromPendingRaw(newsId);
    reply := SentToRewrite;
  }

  /** `approve_raw_news` as bot.py lines 24-51 write it. Line 41 imports
      `process_with_deepseek` from parser.py, which defines only
      `paraphrase_with_deepseek`, so for a known id the import raises
      outside any `try`, after the raw message was deleted: nothing is
      rewritten, stored or removed, the raw entry stays pending and the
      admin gets no answer. An unknown id is answered "not found". The
      method changes no state, which is what the code as written does. */
  method ApproveRawNewsAsWritten(p: NewsSender.Pending, newsId: string) returns (reply: Option<Reply>)
    ensures reply.None? <==> newsId in p.raw
    ensures reply.Some? ==> reply.value == NotFound
  {
    if newsId !in p.raw {
      return Some(NotFound);
    }
    reply := None;
  }

  /** `reject_raw_news`: removes the raw entry whether or not it exists and
      tells every admin. The store is not touched, so nothing is ever
      marked published. */
  method RejectRawNews(p: NewsSender.Pending, newsId: string) returns (broadcast: Reply)
    modifies p
    ensures p.raw == old(p.raw) - {newsId} && p.processed == old(p.processed)
    ensures broadcast == RawRejected
  {
    p.RemoveFromPendingRaw(newsId);
    broadcast := RawRejected;
  }

  // ---------------------------------------------------------------------
  // Publishing to the channel

  /** A message in the channel: a photo with or without a caption, or a text. */
  datatype ChannelMessage = ChannelPhoto(image: string, caption: Option<string>) | ChannelText(text: string)

  /** The text reached the channel, as a caption or as a message. */
  predicate Delivers(posts: seq<ChannelMessage>, text: string) {
    exists m :: m in posts && (m == ChannelText(text) || (m.ChannelPhoto? && m.caption == Some(text)))
  }

  /** The channel send of `approve_processed_news` as bot.py lines 98-115
      write it: a text within the caption limit is the photo's caption; for a
      longer text the photo goes out without a caption and the import of
      `send_long_message`, which news_sender.py does not define, raises, so
      the send is reported failed. Gives the messages posted and whether the
      send counted as a success. */
  function ChannelPostAsWritten(image: string, text: string, photoOk: bool): (r: (seq<ChannelMessage>, bool))
    ensures r.1 <==> photoOk && |text| <= NewsSender.CaptionLimit
    ensures r.1 ==> r.0 == [ChannelPhoto(image, Some(text))]
  {
    if |text| <= NewsSender.CaptionLimit then
      if photoOk then ([ChannelPhoto(image, Some(text))], true) else ([], false)
    else
      if photoOk then ([ChannelPhoto(image, None)], false) else ([], false)
  }

  /** As written, a text over the caption limit is never published from the
      "approve" button, whatever the channel answers, and every try leaves
      a bare photo in the channel. */
  lemma LongTextNeverPublishedAsWritten(image: string, text: string, photoOk: bool)
    requires |text| > NewsSender.CaptionLimit
    ensures !ChannelPostAsWritten(image, text, photoOk).1
    ensures !Delivers(ChannelPostAsWritten(image, text, photoOk).0, text)
    ensures photoOk ==> ChannelPostAsWritten(image, text, photoOk).0 == [ChannelPhoto(image, None)]
  {
  }

  /** The channel send as intended: a long text follows the photo as a
      separate message, and the send succeeds when every message went out. */
  function ChannelPost(image: string, text: string, photoOk: bool, textOk: bool): (r: (seq<ChannelMessage>, bool))
    ensures r.1 <==> photoOk && (|text| <= NewsSender.CaptionLimit || textOk)
  {
    if |text| <= NewsSender.CaptionLimit then
      if photoOk then ([ChannelPhoto(image, Some(text))], true) else ([], false)
    else if !photoOk then ([], false)
    else if textOk then ([ChannelPhoto(image, None), ChannelText(text)], true)
    else ([ChannelPhoto(image, None)], false)
  }

  /** The intended send publishes the whole text whenever it succeeds, never
      with a caption over the limit, and agrees with the send as written on
      every text within the limit. */
  lemma ChannelPostDelivers(image: string, text: string, photoOk: bool, textOk: bool)
    ensures ChannelPost(image, text, photoOk, textOk).1 ==> Delivers(ChannelPost(image, text, photoOk, textOk).0, text)
    ensures forall m :: m in ChannelPost(image, text, photoOk, textOk).0 && m.ChannelPhoto? && m.caption.Some? ==>
              |m.caption.value| <= NewsSender.CaptionLimit
    ensures |text| <= NewsSender.CaptionLimit ==>
              ChannelPost(image, text, photoOk, textOk) == ChannelPostAsWritten(image, text, photoOk)
    ensures |text| > NewsSender.CaptionLimit && photoOk && textOk ==> ChannelPost(image, text, photoOk, textOk).1
  {
  }

  /** `approve_processed_news`: an unknown id is answered "not found"; a
      missing image file stops before anything is sent; a failed channel
      send is reported. In all three cases nothing changes. Only after a
      successful send is the link marked published and the entry removed;
      the acting admin then gets no answer of their own, only the notice
      every admin is sent. */
  method ApproveProcessedNews(p: NewsSender.Pending, db: Database.NewsStore, newsId: string,
                              imageExists: string -> bool, photoOk: bool, textOk: bool)
    returns (reply: Option<Reply>, broadcast: Option<Reply>, posts: seq<ChannelMessage>)
    requires db.Valid()
    modifies p, db
    ensures db.Valid()
    ensures p.raw == old(p.raw) && db.sites == old(db.sites) && db.sent == old(db.sent)
    ensures newsId !in old(p.processed) ==>
              && reply == Some(NotFound) && broadcast == None && posts == []
              && p.processed == old(p.processed) && db.published == old(db.published)
    ensures newsId in old(p.processed) && !imageExists(old(p.processed)[newsId].image) ==>
              && reply == Some(ImageMissing) && broadcast == None && posts == []
              && p.processed == old(p.processed) && db.published == old(db.published)
    ensures newsId in old(p.processed) && imageExists(old(p.processed)[newsId].image) ==>
              var item := old(p.processed)[newsId];
              var sent := ChannelPost(item.image, item.text, photoOk, textOk);
              && posts == sent.0
              && (sent.1 ==> && p.processed == old(p.processed) - {newsId}
                             && db.published == old(db.published) + {item.url}
                             && reply == None && broadcast == Some(PublishedTelegram))
              && (!sent.1 ==> && p.processed == old(p.processed) && db.published == old(db.published)
                              && reply == Some(ChannelFailed) && broadcast == None)
  {
    if newsId !in p.processed {
      return Some(NotFound), None, [];
    }
    var data := p.processed[newsId];
    if !imageExists(data.image) {
      return Some(ImageMissing), None, [];
    }
    var sent := ChannelPost(data.image, data.text, photoOk, textOk);
    posts := sent.0;
    if !sent.1 {
      return Some(ChannelFailed), None, posts;
    }
    db.MarkNewsPublished(data.url);
    p.RemoveFromPendingProcessed(newsId);
    reply, broadcast := None, Some(PublishedTelegram);
  }

  // ---------------------------------------------------------------------
  // Publishing to the site

  /** `post_to_site`: an unknown id is answered "not found". Otherwise the
      text is posted; the link is marked published and the entry removed
      exactly when the post succeeded, and the entry stays pending when it
      failed. */
  method PostToSite(p: NewsSender.Pending, db: Database.NewsStore, newsId: string,
                    ex: SitePoster.Exchange, lower: string -> string)
    returns (reply: Reply, broadcast: Option<Reply>)
    requires db.Valid()
    modifies p, db
    ensures db.Valid()
    ensures p.raw == old(p.raw) && db.sites == old(db.sites) && db.sent == old(db.sent)
    ensures newsId !in old(p.processed) ==>
              && reply == NotFound && broadcast == None
              && p.processed == old(p.processed) && db.published == old(db.published)
    ensures newsId in old(p.processed) ==>
              var item := old(p.processed)[newsId];
              var ok := SitePoster.SiteAccepted(ex, lower);
              && (ok ==> && p.processed == old(p.processed) - {newsId}
                         && db.published == old(db.published) + {item.url}
                         && reply == PublishedSite && broadcast == Some(PublishedSite))
              && (!ok ==> && p.processed == old(p.processed) && db.published == old(db.published)
                          && reply == SiteFailed && broadcast == None)
  {
    if newsId !in p.processed {
      return NotFound, None;
    }
    var data := p.processed[newsId];
    var success, form := SitePoster.PostNewsToSiteSimple(data.text, ex, lower);
    if success {
      db.MarkNewsPublished(data.url);
      p.RemoveFromPendingProcessed(newsId);
      reply, broadcast := PublishedSite, Some(PublishedSite);
    } else {
      reply, broadcast := SiteFailed, None;
    }
  }

  /** The report of `post_to_both` once at least one target succeeded. */
  function BothOutcome(siteOk: bool, telegramOk: bool): (message: Reply)
    requires siteOk || telegramOk
    ensures siteOk && telegramOk <==> message == PublishedBoth
    ensures siteOk && !telegramOk <==> message == PublishedSiteOnly
    ensures !siteOk && telegramOk <==> message == PublishedTelegramOnly
  {
    if siteOk && telegramOk then PublishedBoth
    else if siteOk then PublishedSiteOnly
    else PublishedTelegramOnly
  }

  /** `post_to_both`: an unknown id is answered "not found". Otherwise the
      text goes to the site and, as the caption of the photo, to the
      channel; the link is marked published and the entry removed exactly
      when at least one of them succeeded, the report naming which. When
      both failed nothing changes. */
  method PostToBoth(p: NewsSender.Pending, db: Database.NewsStore, newsId: string,
                    ex: SitePoster.Exchange, lower: string -> string, photoOk: bool)
    returns (reply: Reply, broadcast: Option<Reply>, posts: seq<ChannelMessage>)
    requires db.Valid()
    modifies p, db
    ensures db.Valid()
    ensures p.raw == old(p.raw) && db.sites == old(db.sites) && db.sent == old(db.sent)
    ensures newsId !in old(p.processed) ==>
              && reply == NotFound && broadcast == None && posts == []
              && p.processed == old(p.processed) && db.published == old(db.published)
    ensures newsId in old(p.processed) ==>
              var item := old(p.processed)[newsId];
              var siteOk := SitePoster.SiteAccepted(ex, lower);
              && posts == (if photoOk then [ChannelPhoto(item.image, Some(item.text))] else [])
              && (siteOk || photoOk ==>
                    && p.processed == old(p.processed) - {newsId}
                    && db.published == old(db.published) + {item.url}
                    && reply == BothOutcome(siteOk, photoOk) && broadcast == Some(reply))
              && (!siteOk && !photoOk ==>
                    && p.processed == old(p.processed) && db.published == old(db.published)
                    && reply == BothFailed && broadcast == None)
  {
    if newsId !in p.processed {
      return NotFound, None, [];
    }
    var data := p.processed[newsId];
    var successSite, form := SitePoster.PostNewsToSiteSimple(data.text, ex, lower);
    var successTg := photoOk;
    posts := if successTg then [ChannelPhoto(data.image, Some(data.text))] else [];
    if successSite || successTg {
      db.MarkNewsPublished(data.url);
      p.RemoveFromPendingProcessed(newsId);
      reply := BothOutcome(successSite, successTg);
      broadcast := Some(reply);
    } else {
      reply, broadcast := BothFailed, None;
    }
  }

  /** `reject_processed_news`: removes the processed entry whether or not it
      exists and tells every admin; nothing is marked published. */
  method RejectProcessedNews(p: NewsSender.Pending, newsId: string) returns (broadcast: Reply)
    modifies p
    ensures p.processed == old(p.processed) - {newsId} && p.raw == old(p.raw)
    ensures broadcast == ProcessedRejected
  {
    p.RemoveFromPendingProcessed(newsId);
    broadcast := ProcessedRejected;
  }

  /** Two admins press buttons on the same processed item one after the
      other: once the first has published it, the second, whichever button
      it is, finds no entry, answers "not found" and changes nothing. */
  method FirstResponderWins(p: NewsSender.Pending, db: Database.NewsStore, newsId: string,
                            ex: SitePoster.Exchange, lower: string -> string, photoOk: bool,
                            imageExists: string -> bool, textOk: bool)
    returns (first: Reply, second: Option<Reply>)
    requires db.Valid()
    modifies p, db
    ensures db.Valid()
    ensures first != NotFound && first != BothFailed ==> second == Some(NotFound)
  {
    var notice, posts;
    first, notice, posts := PostToBoth(p, db, newsId, ex, lower, photoOk);
    ghost var processed, published := p.processed, db.published;
    second, notice, posts := ApproveProcessedNews(p, db, newsId, imageExists, photoOk, textOk);
    assert first != NotFound && first != BothFailed ==>
             p.processed == processed && db.published == published;
  }

  // ---------------------------------------------------------------------
  // /addsite

  /** Python's `s.split(maxsplit=1)`: the first word of `s` and, when more
      words follow, the rest of `s` after the whitespace that follows the
      first word. */
  function SplitMax1(s: string): (parts: seq<string>)
    ensures |parts| <= 2
  {
    var t := LStrip(s);
    if t == [] then []
    else
      var n := TokenLen(t);
      var rest := LStrip(t[n..]);
      if rest == [] then [t[..n]] else [t[..n], rest]
  }

  /** `split(maxsplit=1)` agrees with `split()`: no parts exactly when no
      words, the same first word, a second part exactly when there are two
      words or more, and that part holds exactly the remaining words. */
  lemma SplitMax1Words(s: string)
    ensures SplitMax1(s) == [] <==> Words(s) == []
    ensures SplitMax1(s) != [] ==> SplitMax1(s)[0] == Words(s)[0]
    ensures |SplitMax1(s)| == 2 <==> |Words(s)| >= 2
    ensures |SplitMax1(s)| == 2 ==> Words(SplitMax1(s)[1]) == Words(s)[1..]
  {
    var t := LStrip(s);
    WordsLStrip(s);
    if t != [] {
      var n := TokenLen(t);
      assert Words(t) == [t[..n]] + Words(t[n..]);
      var rest := LStrip(t[n..]);
      WordsLStrip(t[n..]);
      if rest != [] {
        assert Words(rest) == [rest[..TokenLen(rest)]] + Words(rest[TokenLen(rest)..]);
      }
    }
  }

  /** The URL `/addsite` would add: the stripped second part of the
      command text, when there is one. */
  function AddSiteArgument(text: string): (url: Option<string>)
    ensures url.Some? <==> |Words(text)| >= 2
    ensures url.Some? ==> IsStripped(url.value) && Words(url.value) == Words(text)[1..]
  {
    SplitMax1Words(text);
    var args := SplitMax1(text);
    if |args| < 2 then None else (WordsStrip(args[1]); Some(Strip(args[1])))
  }

  /** The accepted schemes. */
  predicate ValidFeedUrl(url: string) {
    StartsWith(url, "http://") || StartsWith(url, "https://")
  }

  /** `cmd_add_site`: a non-admin is refused, a command without an argument
      gets the usage, an argument without an http:// or https:// scheme is
      refused; only a valid URL reaches `add_site`, and it is added once. */
  method CmdAddSite(db: Database.NewsStore, admins: seq<int>, userId: int, text: string)
    returns (reply: Reply)
    requires db.Valid()
    modifies db
    ensures db.Valid()
    ensures db.sent == old(db.sent) && db.published == old(db.published)
    ensures !IsAdmin(admins, userId) ==> reply == NotAdmin && db.sites == old(db.sites)
    ensures IsAdmin(admins, userId) && AddSiteArgument(text).None? ==>
              reply == Usage && db.sites == old(db.sites)
    ensures IsAdmin(admins, userId) && AddSiteArgument(text).Some? && !ValidFeedUrl(AddSiteArgument(text).value) ==>
              reply == BadUrl && db.sites == old(db.sites)
    ensures IsAdmin(admins, userId) && AddSiteArgument(text).Some? && ValidFeedUrl(AddSiteArgument(text).value) ==>
              var url := AddSiteArgument(text).value;
              db.sites == Database.Inserted(old(db.sites), url) && reply == FeedAdded(url)
    ensures forall u :: u in db.sites && u !in old(db.sites) ==> ValidFeedUrl(u)
  {
    if !IsAdmin(admins, userId) {
      return NotAdmin;
    }
    var args := SplitMax1(text);
    if |args| < 2 {
      return Usage;
    }
    var url := Strip(args[1]);
    if !ValidFeedUrl(url) {
      return BadUrl;
    }
    db.AddSite(url);
    reply := FeedAdded(url);
  }
}
