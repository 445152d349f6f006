/** news_parsing/news_sender.py: the two pending maps of the moderation
    pipeline, the delivery of a raw or a processed item to every admin with
    up to three attempts, and the removal accessors.

    The outside world is an `Outbox`: the listing of the `images` folder
    (`None` when `os.listdir` raised), the index `random.choice` takes in
    each attempt, and whether the Telegram send to the admin at a given
    position succeeded in a given attempt. md5 is the `digest` function the
    store is built with. */
module NewsSender {
  import opened Wrappers

  /** A raw item waiting for its first approval (news_sender.py lines 30-35). */
  datatype RawItem = RawItem(url: string, image: string, title: string, text: string)

  /** A rewritten item waiting for publication (news_sender.py lines 100-104). */
  datatype ProcessedItem = ProcessedItem(url: string, image: string, text: string)

  /** What one admin receives: a photo with a caption, or, when the full
      caption is too long, a photo with a shortened caption followed by the
      text as a separate message. */
  datatype AdminMessage =
    | Photo(image: string, caption: string)
    | PhotoThenText(image: string, caption: string, text: string)

  /** One delivery attempt: the message and the admins who received it. */
  datatype Round = Round(message: AdminMessage, recipients: seq<int>)

  datatype Outbox = Outbox(imageFiles: Option<seq<string>>, choice: nat -> nat,
                           delivered: (nat, nat) -> bool)

  /** Telegram's limit on a photo caption. */
  const CaptionLimit: nat := 1024

  /** `max_retries`. */
  const MaxRetries: nat := 3

  /** The listing succeeded and holds at least one file. */
  predicate HasImages(out: Outbox) {
    out.imageFiles.Some? && out.imageFiles.value != []
  }

  /** `os.path.join("images", name)`. */
  function ImagePath(name: string): string {
    "images/" + name
  }

  /** The file `random.choice` picks in attempt `attempt`: the outbox's
      index for that attempt, reduced modulo the number of files, so every
      file can be picked and nothing else. */
  function Chosen(out: Outbox, attempt: nat): (f: string)
    requires HasImages(out)
    ensures f in out.imageFiles.value
    ensures out.choice(attempt) < |out.imageFiles.value| ==> f == out.imageFiles.value[out.choice(attempt)]
  {
    out.imageFiles.value[out.choice(attempt) % |out.imageFiles.value|]
  }

  /** The image path of attempt `attempt`. */
  function ImageFor(out: Outbox, attempt: nat): string
    requires HasImages(out)
  {
    ImagePath(Chosen(out, attempt))
  }

  /** The message of `full`, or of `short` plus the text when `full` is over
      the caption limit; a caption sent alone is never over the limit and
      the text always reaches the admin. */
  function Message(image: string, full: string, short: string, text: string): (m: AdminMessage)
    ensures m.image == image
    ensures m.Photo? <==> |full| <= CaptionLimit
    ensures m.Photo? ==> m.caption == full && |m.caption| <= CaptionLimit
    ensures m.PhotoThenText? ==> m.caption == short && m.text == text
  {
    if |full| <= CaptionLimit then Photo(image, full) else PhotoThenText(image, short, text)
  }

  // The fixed pieces of the captions.
  const OpenBold: string := "<b>"
  const CloseBold: string := "</b>"
  const BlankLine: string := "\n\n"
  const SourceLabel: string := "🔗 Источник: "
  const ProcessedHeading: string := "✍\U{FE0F} <b>Обработанная новость</b>\n(оригинал: "
  const CloseParen: string := ")"

  /** The raw item's caption (news_sender.py line 42) and its shortened form
      without the text (line 60). */
  function RawCaption(title: string, text: string, url: string): string {
    OpenBold + title + CloseBold + BlankLine + text + BlankLine + SourceLabel + url
  }

  function RawShortCaption(title: string, url: string): string {
    OpenBold + title + CloseBold + BlankLine + SourceLabel + url
  }

  function RawMessage(image: string, title: string, text: string, url: string): AdminMessage {
    Message(image, RawCaption(title, text, url), RawShortCaption(title, url), text)
  }

  /** The processed item's caption (news_sender.py line 113) and its
      shortened form (line 131). */
  function ProcessedCaption(originalTitle: string, text: string): string {
    ProcessedHeading + originalTitle + CloseParen + BlankLine + text
  }

  function ProcessedShortCaption(originalTitle: string): string {
    ProcessedHeading + originalTitle + CloseParen
  }

  function ProcessedMessage(image: string, originalTitle: string, text: string): AdminMessage {
    Message(image, ProcessedCaption(originalTitle, text), ProcessedShortCaption(originalTitle), text)
  }

  /** The admins, in order, whose send succeeded in attempt `attempt`. */
  function Recipients(admins: seq<int>, attempt: nat, delivered: (nat, nat) -> bool): (r: seq<int>)
    ensures |r| <= |admins|
  {
    if admins == [] then []
    else
      var n := |admins| - 1;
      Recipients(admins[..n], attempt, delivered)
        + (if delivered(attempt, n) then [admins[n]] else [])
  }

  /** Only admins receive a message, and an attempt in which every send
      fails reaches nobody. */
  lemma {:induction false} RecipientsAreAdmins(admins: seq<int>, attempt: nat, delivered: (nat, nat) -> bool)
    ensures forall a :: a in Recipients(admins, attempt, delivered) ==> a in admins
    ensures (forall i :: 0 <= i < |admins| ==> !delivered(attempt, i)) ==> Recipients(admins, attempt, delivered) == []
    decreases |admins|
  {
    if admins != [] {
      var n := |admins| - 1;
      RecipientsAreAdmins(admins[..n], attempt, delivered);
    }
  }

  /** The number of attempts the send loop makes from attempt `a` on: it
      stops after the first attempt that reached an admin, and after
      `MaxRetries` attempts in all. */
  function AttemptsFrom(admins: seq<int>, delivered: (nat, nat) -> bool, a: nat): (n: nat)
    requires a < MaxRetries
    ensures a < n <= MaxRetries
    decreases MaxRetries - a
  {
    if a + 1 == MaxRetries || Recipients(admins, a, delivered) != [] then a + 1
    else AttemptsFrom(admins, delivered, a + 1)
  }

  /** The attempts a send makes in all. */
  function Attempts(admins: seq<int>, delivered: (nat, nat) -> bool): nat {
    AttemptsFrom(admins, delivered, 0)
  }

  /** Every attempt before the last reached nobody, and a send that stopped
      before `MaxRetries` attempts did so because its last attempt reached
      an admin. */
  lemma {:induction false} AttemptsFromStop(admins: seq<int>, delivered: (nat, nat) -> bool, a: nat)
    requires a < MaxRetries
    ensures forall b :: a <= b < AttemptsFrom(admins, delivered, a) - 1 ==> Recipients(admins, b, delivered) == []
    ensures AttemptsFrom(admins, delivered, a) < MaxRetries ==>
              Recipients(admins, AttemptsFrom(admins, delivered, a) - 1, delivered) != []
    decreases MaxRetries - a
  {
    if !(a + 1 == MaxRetries || Recipients(admins, a, delivered) != []) {
      AttemptsFromStop(admins, delivered, a + 1);
    }
  }

  lemma AttemptsStop(admins: seq<int>, delivered: (nat, nat) -> bool)
    ensures 1 <= Attempts(admins, delivered) <= MaxRetries
    ensures forall b :: 0 <= b < Attempts(admins, delivered) - 1 ==> Recipients(admins, b, delivered) == []
    ensures Attempts(admins, delivered) < MaxRetries ==>
              Recipients(admins, Attempts(admins, delivered) - 1, delivered) != []
  {
    AttemptsFromStop(admins, delivered, 0);
  }

  /** The loop over `ADMINS` (news_sender.py lines 45-70): one send per
      admin, a failed send only skipped; `sentToAdmins` counts the admins
      reached and never exceeds their number. */
  method DeliverToAdmins(admins: seq<int>, attempt: nat, delivered: (nat, nat) -> bool)
    returns (sentToAdmins: nat, recipients: seq<int>)
    ensures recipients == Recipients(admins, attempt, delivered)
    ensures sentToAdmins == |recipients| <= |admins|
  {
    sentToAdmins, recipients := 0, [];
    for i := 0 to |admins|
      invariant recipients == Recipients(admins[..i], attempt, delivered)
      invariant sentToAdmins == |recipients|
    {
      assert admins[..i + 1][..i] == admins[..i];
      if delivered(attempt, i) {
        recipients := recipients + [admins[i]];
        sentToAdmins := sentToAdmins + 1;
      }
    }
    assert admins[..|admins|] == admins;
  }

  /** The two module-level dictionaries `pending_raw_news` and
      `pending_processed_news`, keyed by an md5 digest of the source URL. */
  class Pending {
    const admins: seq<int>
    const digest: string -> string
    var raw: map<string, RawItem>
    var processed: map<string, ProcessedItem>

    constructor (admins: seq<int>, digest: string -> string)
      ensures this.admins == admins && this.digest == digest
      ensures raw == map[] && processed == map[]
    {
      this.admins := admins;
      this.digest := digest;
      raw := map[];
      processed := map[];
    }

    /** The key of a raw item: depends on the source URL alone. */
    function RawId(url: string): string {
      digest(url)
    }

    /** The key of a processed item: the digest of the URL with "_processed". */
    function ProcessedId(url: string): string {
      digest(url + "_processed")
    }

    /** What attempt `a` of `send_raw_news_to_admin` sends and to whom. */
    function RawRound(out: Outbox, a: nat, title: string, newsText: string, sourceUrl: string): Round
      requires HasImages(out)
    {
      Round(RawMessage(ImageFor(out, a), title, newsText, sourceUrl), Recipients(admins, a, out.delivered))
    }

    /** What attempt `a` of `send_processed_news_to_admin` sends and to whom. */
    function ProcessedRound(out: Outbox, a: nat, newsText: string, sourceUrl: string, originalTitle: string): Round
      requires HasImages(out)
    {
      Round(ProcessedMessage(ImageFor(out, a), originalTitle, newsText), Recipients(admins, a, out.delivered))
    }

    /** The rounds of the first `n` attempts of `send_raw_news_to_admin`. */
    function RawRounds(out: Outbox, n: nat, title: string, newsText: string, sourceUrl: string): (rs: seq<Round>)
      requires HasImages(out)
      ensures |rs| == n
    {
      if n == 0 then [] else RawRounds(out, n - 1, title, newsText, sourceUrl) + [RawRound(out, n - 1, title, newsText, sourceUrl)]
    }

    /** Round `a` of the first `n` is what attempt `a` sends and to whom. */
    lemma {:induction false} RawRoundsAt(out: Outbox, n: nat, title: string, newsText: string, sourceUrl: string)
      requires HasImages(out)
      ensures forall a :: 0 <= a < n ==> RawRounds(out, n, title, newsText, sourceUrl)[a] == RawRound(out, a, title, newsText, sourceUrl)
    {
      if n > 0 {
        RawRoundsAt(out, n - 1, title, newsText, sourceUrl);
      }
    }

    /** The rounds of the first `n` attempts of `send_processed_news_to_admin`. */
    function ProcessedRounds(out: Outbox, n: nat, newsText: string, sourceUrl: string, originalTitle: string): (rs: seq<Round>)
      requires HasImages(out)
      ensures |rs| == n
    {
      if n == 0 then [] else ProcessedRounds(out, n - 1, newsText, sourceUrl, originalTitle) + [ProcessedRound(out, n - 1, newsText, sourceUrl, originalTitle)]
    }

    /** Round `a` of the first `n` is what attempt `a` sends and to whom. */
    lemma {:induction false} ProcessedRoundsAt(out: Outbox, n: nat, newsText: string, sourceUrl: string, originalTitle: string)
      requires HasImages(out)
      ensures forall a :: 0 <= a < n ==>
                ProcessedRounds(out, n, newsText, sourceUrl, originalTitle)[a] == ProcessedRound(out, a, newsText, sourceUrl, originalTitle)
    {
      if n > 0 {
        ProcessedRoundsAt(out, n - 1, newsText, sourceUrl, originalTitle);
      }
    }

    /** One attempt of `send_raw_news_to_admin` once the images folder is
        known to be non-empty (news_sender.py lines 28-70): the item is
        stored before any send, then every admin is tried. */
    method RawAttempt(title: string, newsText: string, sourceUrl: string, out: Outbox, attempt: nat)
      returns (round: Round, sentToAdmins: nat)
      requires HasImages(out)
      modifies this
      ensures raw == old(raw)[RawId(sourceUrl) := RawItem(sourceUrl, ImageFor(out, attempt), title, newsText)]
      ensures processed == old(processed)
      ensures round == RawRound(out, attempt, title, newsText, sourceUrl)
      ensures sentToAdmins == |round.recipients| <= |admins|
      ensures round.recipients == Recipients(admins, attempt, out.delivered)
    {
      var imagePath := ImageFor(out, attempt);
      var newsId := RawId(sourceUrl);
      raw := raw[newsId := RawItem(sourceUrl, imagePath, title, newsText)];
      var message := RawMessage(imagePath, title, newsText, sourceUrl);
      var recipients;
      sentToAdmins, recipients := DeliverToAdmins(admins, attempt, out.delivered);
      round := Round(message, recipients);
    }

    /** One attempt of `send_processed_news_to_admin` (news_sender.py lines
        98-141). */
    method ProcessedAttempt(newsText: string, sourceUrl: string, originalTitle: string, out: Outbox, attempt: nat)
      returns (round: Round, sentToAdmins: nat)
      requires HasImages(out)
      modifies this
      ensures processed == old(processed)[ProcessedId(sourceUrl) :=
                                            ProcessedItem(sourceUrl, ImageFor(out, attempt), newsText)]
      ensures raw == old(raw)
      ensures round == ProcessedRound(out, attempt, newsText, sourceUrl, originalTitle)
      ensures sentToAdmins == |round.recipients| <= |admins|
      ensures round.recipients == Recipients(admins, attempt, out.delivered)
    {
      var imagePath := ImageFor(out, attempt);
      var newsId := ProcessedId(sourceUrl);
      processed := processed[newsId := ProcessedItem(sourceUrl, imagePath, newsText)];
      var message := ProcessedMessage(imagePath, originalTitle, newsText);
      var recipients;
      sentToAdmins, recipients := DeliverToAdmins(admins, attempt, out.delivered);
      round := Round(message, recipients);
    }

    /** `send_raw_news_to_admin`. Each attempt lists the images folder and
        returns when it is empty (a listing that raises ends the loop too),
        stores the item under the URL's digest (replacing an earlier item of
        the same URL) before any send, then tries every admin; the loop ends
        after the first attempt that reached an admin, and after three
        attempts at most (`AttemptsStop`). */
    method SendRawNewsToAdmin(title: string, newsText: string, sourceUrl: string, out: Outbox)
      returns (rounds: seq<Round>, sentToAdmins: nat)
      modifies this
      ensures processed == old(processed)
      ensures !HasImages(out) ==> rounds == [] && sentToAdmins == 0 && raw == old(raw)
      ensures HasImages(out) ==>
                && |rounds| == Attempts(admins, out.delivered)
                && rounds == RawRounds(out, |rounds|, title, newsText, sourceUrl)
                && raw == old(raw)[RawId(sourceUrl) := RawItem(sourceUrl, ImageFor(out, |rounds| - 1), title, newsText)]
                && sentToAdmins == |Recipients(admins, |rounds| - 1, out.delivered)|
    {
      rounds, sentToAdmins := [], 0;
      // The listing is the same in every attempt: when it raises, the first
      // attempt ends the loop; when it is empty, the first attempt returns.
      if !HasImages(out) {
        return;
      }
      var raw0 := raw;
      var attempt := 0;
      while attempt < MaxRetries
        invariant 0 <= attempt <= MaxRetries
        invariant processed == old(processed)
        invariant attempt == 0 ==> raw == raw0
        invariant attempt > 0 ==> raw == raw0[RawId(sourceUrl) := RawItem(sourceUrl, ImageFor(out, attempt - 1), title, newsText)]
        invariant rounds == RawRounds(out, attempt, title, newsText, sourceUrl)
        invariant attempt < MaxRetries ==> Attempts(admins, out.delivered) == AttemptsFrom(admins, out.delivered, attempt)
        invariant attempt == MaxRetries ==> Attempts(admins, out.delivered) == MaxRetries
        invariant attempt > 0 ==> sentToAdmins == |Recipients(admins, attempt - 1, out.delivered)|
      {
        if attempt > 0 {
          UpdateTwice(raw0, RawId(sourceUrl), RawItem(sourceUrl, ImageFor(out, attempt - 1), title, newsText), RawItem(sourceUrl, ImageFor(out, attempt), title, newsText));
        }
        var round;
        round, sentToAdmins := RawAttempt(title, newsText, sourceUrl, out, attempt);
        rounds := rounds + [round];
        if sentToAdmins > 0 {
          break;
        }
        attempt := attempt + 1;
      }
    }

    /** `send_processed_news_to_admin`: the same attempts as for a raw item,
        storing into the processed map under the digest of the URL with
        "_processed"; the raw map is never touched. */
    method SendProcessedNewsToAdmin(newsText: string, sourceUrl: string, originalTitle: string, out: Outbox)
      returns (rounds: seq<Round>, sentToAdmins: nat)
      modifies this
      ensures raw == old(raw)
      ensures !HasImages(out) ==> rounds == [] && sentToAdmins == 0 && processed == old(processed)
      ensures HasImages(out) ==>
                && |rounds| == Attempts(admins, out.delivered)
                && rounds == ProcessedRounds(out, |rounds|, newsText, sourceUrl, originalTitle)
                && processed == old(processed)[ProcessedId(sourceUrl) := ProcessedItem(sourceUrl, ImageFor(out, |rounds| - 1), newsText)]
                && sentToAdmins == |Recipients(admins, |rounds| - 1, out.delivered)|
    {
      rounds, sentToAdmins := [], 0;
      // The listing is the same in every attempt: when it raises, the first
      // attempt ends the loop; when it is empty, the first attempt returns.
      if !HasImages(out) {
        return;
      }
      var processed0 := processed;
      var attempt := 0;
      while attempt < MaxRetries
        invariant 0 <= attempt <= MaxRetries
        invariant raw == old(raw)
        invariant attempt == 0 ==> processed == processed0
        invariant attempt > 0 ==> processed == processed0[ProcessedId(sourceUrl) := ProcessedItem(sourceUrl, ImageFor(out, attempt - 1), newsText)]
        invariant rounds == ProcessedRounds(out, attempt, newsText, sourceUrl, originalTitle)
        invariant attempt < MaxRetries ==> Attempts(admins, out.delivered) == AttemptsFrom(admins, out.delivered, attempt)
        invariant attempt == MaxRetries ==> Attempts(admins, out.delivered) == MaxRetries
        invariant attempt > 0 ==> sentToAdmins == |Recipients(admins, attempt - 1, out.delivered)|
      {
        if attempt > 0 {
          UpdateTwice(processed0, ProcessedId(sourceUrl), ProcessedItem(sourceUrl, ImageFor(out, attempt - 1), newsText), ProcessedItem(sourceUrl, ImageFor(out, attempt), newsText));
        }
        var round;
        round, sentToAdmins := ProcessedAttempt(newsText, sourceUrl, originalTitle, out, attempt);
        rounds := rounds + [round];
        if sentToAdmins > 0 {
          break;
        }
        attempt := attempt + 1;
      }
    }

    /** `remove_from_pending_raw_news`: drops exactly the given key, if
        present. */
    method RemoveFromPendingRaw(newsId: string)
      modifies this
      ensures raw == old(raw) - {newsId}
      ensures newsId !in raw && forall k :: k != newsId ==> (k in raw <==> k in old(raw))
      ensures newsId !in old(raw) ==> raw == old(raw)
      ensures processed == old(processed)
    {
      if newsId in raw {
        raw := raw - {newsId};
      }
    }

    /** `remove_from_pending_processed_news`: drops exactly the given key, if
        present. */
    method RemoveFromPendingProcessed(newsId: string)
      modifies this
      ensures processed == old(processed) - {newsId}
      ensures newsId !in processed && forall k :: k != newsId ==> (k in processed <==> k in old(processed))
      ensures newsId !in old(processed) ==> processed == old(processed)
      ensures raw == old(raw)
    {
      if newsId in processed {
        processed := processed - {newsId};
      }
    }
  }

  /** Storing under a key that already holds an update of `m` keeps only
      the newer value. */
  lemma UpdateTwice<V>(m: map<string, V>, k: string, u: V, v: V)
    ensures m[k := u][k := v] == m[k := v]
  {
  }

  /** Removing a key twice removes it once. */
  lemma RemoveIdempotent<V>(m: map<string, V>, k: string)
    ensures (m - {k}) - {k} == m - {k}
    ensures k !in m ==> m - {k} == m
  {
  }
}
