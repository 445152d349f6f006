# NewsAggregatorBot — a Dafny model of the moderation core

NewsAggregatorBot reads RSS feeds and paraphrases each new entry. It offers the
paraphrase to a group of Telegram admins, who publish it to a Telegram
channel, to a CMS site, or to both, or reject it. This project models the
parts of that pipeline that hold state or make decisions:

- the SQLite dedup and site tables (`news_parsing/database.py`,
  `News/database.py`), as a class whose fields are a list of site URLs and
  sets of links (modules `Database`, `LegacyDatabase`);
- the two pending maps and the bounded delivery-retry loops of
  `news_parsing/news_sender.py` (module `NewsSender`, class `Pending`);
- the moderation handlers of `news_parsing/bot.py` (module `Bot`);
- the text shaping, SEO derivation, form choice and response classification
  of `news_parsing/site_poster.py` and `news_parsing/site.py` (modules
  `SitePoster`, `Site`);
- the cleaning, word limiting, fallback paraphrase, entry defaults and feed
  pass of `news_parsing/parser.py` (module `Parser`);
- the older one-stage bot of `News/main.py`, with its single `pending_news`
  map, its approval and rejection handlers and its two feed passes (module
  `LegacyMain`, class `LegacyPending`).

`Text` holds the string vocabulary the source gets from Python's `str`:
`split()`, `strip()`, `find`, `split(sep, 1)`, `split(sep)`, and the
`re.sub(r'\s+', ' ', …)` collapse. Whitespace is the set of code points for
which Python's `str.isspace()` holds: tab through carriage return, the
separators U+001C to U+001F, space, U+0085, no-break space and the Unicode
space separators. `Wrappers` holds `Option`.

Everything outside the process arrives as a parameter:

- what DeepSeek answers and what `get_full_article` returns;
- the feed entries `feedparser` yields;
- the `images` folder listing and the index `random.choice` takes;
- whether each Telegram send goes through;
- the exchange with the site;
- `html.unescape`, `str.lower` and the md5 digest.

Handlers return the message they answer with (`reply`) and the message they
send to every admin (`broadcast`).

The Dafny is proved against its own specification functions. The state
changes of the handlers and loops are stated in full. The invariants the
source relies on are proved as lemmas: no duplicate site, the retry bound,
the caption limit, the title/body round trip, and word-count bounds.

## Model

| member | source | states |
|---|---|---|
| Database.Inserted | news_parsing/database.py:29-32 | `INSERT OR IGNORE` on the UNIQUE `url` column: the new URL is present afterwards; the rows are the old rows plus it; a present URL changes nothing; an absent one is appended; a table without duplicates keeps none |
| Database.InsertedIdempotent | news_parsing/database.py:29-32 | adding a URL twice leaves the same table as adding it once |
| Database.Removed | news_parsing/database.py:34-37 | `DELETE … WHERE url = ?` removes exactly that URL and keeps every other row; an absent URL is a no-op; without duplicates the table shrinks by exactly one row when the URL was present |
| Database.RemovedIdempotent | news_parsing/database.py:34-37 | removing a URL twice equals removing it once |
| Database.RemovedKeepsOrder | news_parsing/database.py:34-37 | two surviving rows keep their relative order after a delete |
| Database.NewsStore.constructor | news_parsing/database.py:5-27 | `init_db` starts with no sites, no sent links and no published links |
| Database.NewsStore.AddSite | news_parsing/database.py:29-32 | the site list becomes `Inserted(old, url)`, stays duplicate-free, and the link sets are untouched |
| Database.NewsStore.RemoveSite | news_parsing/database.py:34-37 | the site list becomes `Removed(old, url)`, and the link sets are untouched |
| Database.NewsStore.GetSites | news_parsing/database.py:39-43 | returns every stored URL exactly once (no duplicates, same membership, same count) |
| Database.NewsStore.MarkNewsSent | news_parsing/database.py:51-55 | the sent set gains the link (an idempotent insert), after which `is_news_sent` holds for it; sites and published links are unchanged |
| Database.NewsStore.MarkNewsPublished | news_parsing/database.py:63-67 | the published set gains the link, after which `is_news_published` holds for it; sites and sent links are unchanged |
| Database.NewsStore.CleanupOldPendingNews | news_parsing/database.py:69-82 | deletes from `news_sent` exactly the stale links that are not published; a link in both tables survives; `published_news` and the sites are unchanged |
| LegacyDatabase.SiteStore.constructor | News/database.py:5-19 | the legacy store starts with no sites and no sent links |
| LegacyDatabase.SiteStore.AddSite | News/database.py:21-24 | the site list becomes `Inserted(old, url)`: idempotent, duplicate-free; sent links are untouched |
| LegacyDatabase.SiteStore.RemoveSite | News/database.py:26-29 | the site list becomes `Removed(old, url)`: exactly that URL goes; sent links are untouched |
| LegacyDatabase.SiteStore.GetSites | News/database.py:31-35 | returns each stored URL once |
| LegacyDatabase.SiteStore.MarkNewsSent | News/database.py:42-45 | the sent set gains the link and never loses one; `is_news_sent` holds for it afterwards |
| NewsSender.Chosen | news_parsing/news_sender.py:28 | the image `random.choice` picks is always one of the listed files, and it is the file at the drawn index |
| NewsSender.Message | news_parsing/news_sender.py:48-64 | the full caption goes with the photo exactly when it is at most 1024 characters; otherwise the photo carries the short caption and the body is sent as a separate message |
| NewsSender.Recipients | news_parsing/news_sender.py:45-66 | the admins reached in one attempt are at most as many as the admins |
| NewsSender.RecipientsAreAdmins | news_parsing/news_sender.py:45-66 | everyone reached is an admin, and an attempt in which no send goes through reaches nobody |
| NewsSender.AttemptsFrom | news_parsing/news_sender.py:20-21 | the retry loop runs at least one more attempt and never beyond `max_retries` (3) |
| NewsSender.AttemptsFromStop | news_parsing/news_sender.py:72-74 | every attempt before the last reached nobody; a loop that stopped early did so because its last attempt reached an admin |
| NewsSender.AttemptsStop | news_parsing/news_sender.py:20-74 | between 1 and 3 attempts; the loop breaks after the first attempt that delivered to at least one admin |
| NewsSender.DeliverToAdmins | news_parsing/news_sender.py:45-66 | the loop over `ADMINS` counts exactly the admins whose send went through, and `sent_to_admins` never exceeds the number of admins |
| NewsSender.Pending.constructor | news_parsing/news_sender.py:14-15 | both pending maps start empty |
| NewsSender.Pending.RawRounds | news_parsing/news_sender.py:19-85 | one round is recorded per attempt |
| NewsSender.Pending.RawRoundsAt | news_parsing/news_sender.py:45-70 | round `a` is exactly what attempt `a` sends, and to whom |
| NewsSender.Pending.ProcessedRounds | news_parsing/news_sender.py:89-156 | one round is recorded per attempt |
| NewsSender.Pending.ProcessedRoundsAt | news_parsing/news_sender.py:116-141 | round `a` is exactly what attempt `a` sends, and to whom |
| NewsSender.Pending.RawAttempt | news_parsing/news_sender.py:28-70 | one attempt stores the raw item under the URL's digest before any delivery (replacing an earlier item of that URL), leaves the processed map alone, and counts only admins actually reached |
| NewsSender.Pending.ProcessedAttempt | news_parsing/news_sender.py:98-141 | one attempt stores the processed item under the digest of `url + "_processed"`, leaves the raw map alone, and counts the admins reached |
| NewsSender.Pending.SendRawNewsToAdmin | news_parsing/news_sender.py:19-85 | an empty or missing images folder stores nothing and sends nothing; otherwise the attempt count follows `Attempts`, the raw map holds the last attempt's item under the URL's key, the processed map is untouched, and the result is the last attempt's count |
| NewsSender.Pending.SendProcessedNewsToAdmin | news_parsing/news_sender.py:89-156 | the same for the processed map, keyed by the digest of `url + "_processed"`; the raw map is never modified |
| NewsSender.Pending.RemoveFromPendingRaw | news_parsing/news_sender.py:166-168 | `pop(news_id, None)`: only that key goes, an absent key is a no-op, and the processed map is untouched |
| NewsSender.Pending.RemoveFromPendingProcessed | news_parsing/news_sender.py:170-172 | the same for the processed map; the raw map is untouched |
| NewsSender.UpdateTwice | news_parsing/news_sender.py:30-35 | storing the same URL again overwrites its entry instead of adding a second one |
| NewsSender.RemoveIdempotent | news_parsing/news_sender.py:166-172 | removing a key twice equals removing it once; removing an absent key changes nothing |
| Bot.ApproveRawNews | news_parsing/bot.py:24-51 | an unknown id answers "not found" and changes nothing; otherwise the rewritten text is stored as a processed item of the same URL (unless there are no images), and the raw entry is gone |
| Bot.ApproveRawNewsAsWritten | news_parsing/bot.py:24-51 | as written, a known id gets no answer and its raw entry stays pending, because the import on line 41 fails before anything is rewritten or stored; an unknown id is answered "not found" |
| Bot.RejectRawNews | news_parsing/bot.py:55-76 | the raw entry is removed unconditionally, the processed map is untouched, and the admins are told |
| Bot.ChannelPostAsWritten | news_parsing/bot.py:100-115 | as written, the channel send counts as a success exactly when the photo send succeeds and the text fits the 1024-character caption; the text is then the caption |
| Bot.LongTextNeverPublishedAsWritten | news_parsing/bot.py:105-115 | as written, a text over 1024 characters is never published: the send is reported failed and no posted message carries the text |
| Bot.ChannelPost | news_parsing/bot.py:100-115 | as intended, a long text is sent as a follow-up message, so the send succeeds when the photo and that message go through |
| Bot.ChannelPostDelivers | news_parsing/bot.py:100-115 | as intended, a successful channel send delivers the text; no caption exceeds 1024 characters; for short texts the result agrees with the code as written |
| Bot.ApproveProcessedNews | news_parsing/bot.py:80-131 | unknown id, missing image or failed channel send: the admin is told which, and nothing changes; the entry is removed and the link marked published exactly when the channel send succeeds, and then the acting admin gets no answer of their own, only the notice sent to every admin |
| Bot.PostToSite | news_parsing/bot.py:134-159 | unknown id: "not found", nothing changes; the link is published and the entry removed exactly when the site accepts the post, otherwise the item stays pending |
| Bot.BothOutcome | news_parsing/bot.py:192-198 | the message says "both", "site only" or "Telegram only" exactly according to which targets succeeded |
| Bot.PostToBoth | news_parsing/bot.py:162-210 | the link is published and the entry removed exactly when at least one target succeeded, with the message chosen by `BothOutcome`; total failure changes nothing |
| Bot.RejectProcessedNews | news_parsing/bot.py:213-233 | the processed entry is removed unconditionally, nothing is marked published, and the raw map is untouched |
| Bot.FirstResponderWins | news_parsing/bot.py:85-88 | once `post_to_both` has published an item, a later `approve_processed_news` of the same id finds no entry and answers "not found" |
| Bot.SplitMax1 | news_parsing/bot.py:326 | `split(maxsplit=1)` yields at most two parts |
| Bot.SplitMax1Words | news_parsing/bot.py:326 | the parts of `split(maxsplit=1)` agree with `split()`: no parts exactly when there are no words; the first part is the first word; the rest carries the remaining words |
| Bot.AddSiteArgument | news_parsing/bot.py:326-332 | the argument exists exactly when the command has at least two words; it is stripped and holds the words after the command |
| Bot.CmdAddSite | news_parsing/bot.py:320-343 | a non-admin, a missing argument or a URL without an `http://`/`https://` scheme leave the sites unchanged, each with its own answer; only a valid URL is added, and every newly stored site is a valid URL |
| SitePoster.SplitTitleAndBody | news_parsing/site_poster.py:49-65 | title and body are both stripped |
| SitePoster.SplitTitleAndBodySingleLine | news_parsing/site_poster.py:57-65 | a single line is the title, and the body is empty |
| SitePoster.SplitTitleAndBodyWords | news_parsing/site_poster.py:49-65 | splitting loses and reorders no word: the title's words followed by the body's are the text's words |
| SitePoster.SplitAtLineWords | news_parsing/site_poster.py:57-61 | the first line and the remaining lines together keep every word of the text |
| SitePoster.ExtractTitleAndBody | news_parsing/site_poster.py:46-78 | the title is at most 255 characters; neither part holds a newline or a run of whitespace; the body is stripped |
| SitePoster.ExtractTitleAndBodyWords | news_parsing/site_poster.py:46-78 | when the title is not truncated, no word is lost or changed |
| SitePoster.StripTrailingBlankLine | news_parsing/site_poster.py:49 | a stripped title followed by a blank line strips back to the title |
| SitePoster.SplitTitleAndBodyJoin | news_parsing/site_poster.py:52-55 | a one-line title and a body joined by a blank line split back into the same title and body |
| SitePoster.ExtractTitleAndBodyRoundTrip | news_parsing/site_poster.py:46-78 | a collapsed title of at most 255 characters and a collapsed body joined by a blank line come back unchanged |
| SitePoster.Subtitle | news_parsing/site_poster.py:150 | the subtitle is the body when it is at most 100 characters, else its first 100 characters followed by "..."; it is never over 103 characters |
| SitePoster.FormFor | news_parsing/site_poster.py:144-155 | the form's title and description are the extracted pair; `seo_title` is `title[:60]` (the prefix of length min(len, 60)); `seo_description` is `body[:160]`, or `title[:160]` when the body is empty (the prefix of length min(len, 160)); the subtitle is `Subtitle(body)`; the keywords are the fixed list |
| SitePoster.FirstNonLogout | news_parsing/site_poster.py:102-107 | the scan stops at the first form whose action lacks "logout"; all earlier forms are logout forms |
| SitePoster.ChosenForm | news_parsing/site_poster.py:101-115 | no forms gives none; otherwise the first non-logout form, or the first form when every form is a logout form |
| SitePoster.SelectForm | news_parsing/site_poster.py:101-115 | the loop over `forms` chooses exactly `ChosenForm` |
| SitePoster.CsrfToken | news_parsing/site_poster.py:80-131 | on a 200 page with at least one form the token is the `_token` value of the chosen form (`ChosenForm`: the first whose action is not a logout, else the first form), so it is None when that form has no `_token` input; a failed fetch, a status other than 200 or a page without forms gives None |
| SitePoster.GetCsrfTokenForCreate | news_parsing/site_poster.py:80-131 | returns exactly `CsrfToken` of the page |
| SitePoster.CreateSucceeded | news_parsing/site_poster.py:216-256 | 500 fails; 302 succeeds; any other status but 200 fails; on 200 a success keyword wins, and only error keywords without a success keyword mean failure |
| SitePoster.PostNewsToSiteSimple | news_parsing/site_poster.py:134-260 | succeeds exactly when login works, a non-empty CSRF token is found and the response is classified a success; a form is posted exactly when login and token succeed, and it is `FormFor(text)` |
| Site.ExtractTitleAndBody | news_parsing/site.py:27-32 | both parts are stripped; without "\n\n" in the stripped text the title is the whole of it and the body is empty |
| Site.ExtractTitleAndBodyWords | news_parsing/site.py:27-32 | the title's words followed by the body's are the text's words |
| Site.ExtractTitleAndBodyRoundTrip | news_parsing/site.py:27-32 | a stripped non-empty title without "\n\n" and a stripped body joined by an empty line extract back to the same pair |
| Site.FormFor | news_parsing/site.py:42-57 | `subtitle_ru` and `seo_title_ru` equal the title; `seo_description_ru` is `body[:160]`: the body when it has at most 160 characters, else its prefix of exactly 160; the keywords are the first at most five title words joined by ", "; `seo_url` is empty |
| Site.KeywordsSplitBack | news_parsing/site.py:47 | splitting a form's keywords on ", " gives back between one and five of the title's first words |
| Site.KeywordsOf | news_parsing/site.py:47 | joining the first five title words with ", " and splitting again is the identity |
| Site.PostNewsToSite | news_parsing/site.py:35-86 | true exactly when login works and the response is a 200 whose lowercased body holds "успешно" or "success"; the form is built from the extracted pair whenever login works |
| Parser.StripTags | news_parsing/parser.py:33 | `re.sub(r'<[^>]+>', '', …)` leaves no complete tag and never lengthens the text |
| Parser.StripTagsNoOpen | news_parsing/parser.py:33 | a text without "<" passes through unchanged |
| Parser.SquashNoSpaceBeforeNewline | news_parsing/parser.py:35 | as written, after `\s+\n` → `\n` no whitespace character precedes a newline |
| Parser.CapNewlines | news_parsing/parser.py:36 | a leading run of newlines is capped at two |
| Parser.CapNoTripleNewline | news_parsing/parser.py:36 | after `\n{3,}` → `\n\n` there are never three newlines in a row |
| Parser.CapNewlinesIdentity | news_parsing/parser.py:35-36 | on text already squashed by line 35, the line-36 substitution changes nothing |
| Parser.CapNewlinesNoTriple | news_parsing/parser.py:36 | text without three newlines in a row is left unchanged |
| Parser.CleanTextShape | news_parsing/parser.py:32-37 | as written, `clean_text` returns stripped text with no whitespace before a newline, hence no blank line at all; the `clean_text` of News/main.py lines 44-49 is the same code |
| Parser.CleanTextDropsBlankLine | news_parsing/parser.py:35 | as written, any text with a blank line is changed by `clean_text`: paragraph breaks are lost |
| Parser.SquashIntendedIdentity | news_parsing/parser.py:35 | as intended, squashing only horizontal whitespace leaves text with no horizontal space before a newline unchanged |
| Parser.CleanTextIntendedShape | news_parsing/parser.py:32-37 | as intended, the result is stripped and never has three newlines in a row |
| Parser.CleanTextIntendedIdentity | news_parsing/parser.py:32-37 | as intended, already clean text (no tags, no trailing spaces on lines, no triple newline, stripped) is a fixed point |
| Parser.CleanTextIntendedKeepsBlankLine | news_parsing/parser.py:35 | as intended, "A\n\nB" keeps its paragraph break |
| Parser.LimitWords | news_parsing/parser.py:41-45 | a text of at most `max_words` words is returned unchanged; the `limit_words` of News/main.py lines 53-57 is the same code |
| Parser.LimitWordsWords | news_parsing/parser.py:45 | a longer text becomes its first `max_words` words with "…" attached to the last |
| Parser.LimitWordsBound | news_parsing/parser.py:41-45 | for `max_words ≥ 1` the result has at most `max_words` words |
| Parser.LimitWordsIdempotent | news_parsing/parser.py:41-45 | limiting twice equals limiting once |
| Parser.Fallback | news_parsing/parser.py:94-99 | the fallback text has at most 180 words, and it is the cleaned title and body (cleaned by the corrected `clean_text`) whenever those fit |
| Parser.ParaphraseWithDeepseek | news_parsing/parser.py:49-99 | the paraphrase has at most 180 words; a failed request or an empty `choices` list gives the fallback |
| Parser.EntryTitleAndBody | news_parsing/parser.py:103-108 | a missing title becomes "Без названия"; an empty article falls back to the summary, and to the description only when there is no summary attribute |
| Parser.ProcessEntry | news_parsing/parser.py:103-109 | the processed entry has at most 180 words |
| Parser.EntryDispatches | news_parsing/parser.py:117-122 | an entry yields a dispatch exactly when its link is not yet sent, and the dispatch carries that link |
| Parser.Unsent | news_parsing/parser.py:116-124 | a pass yields at most one dispatch per entry, and none for a sent link |
| Parser.UnsentStep | news_parsing/parser.py:116-124 | one more entry appends its own dispatch to the pass |
| Parser.ParseFeedAndProcess | news_parsing/parser.py:113-125 | the loop inspects the first `limit` entries, dispatches exactly `Unsent` of them, and counts them: the count is at most `limit` and no counted link was already sent |
| LegacyMain.Pick | News/main.py:116-117 | the picked image is one of the listed files |
| LegacyMain.Reached | News/main.py:130-146 | the admins reached are admins, at most as many as there are |
| LegacyMain.AdminMessageFor | News/main.py:128-146 | the captioned photo is used exactly when the caption fits 1024 characters; otherwise a bare photo is followed by the text |
| LegacyMain.AllUnsent | News/main.py:227-236 | no dispatched link was already sent |
| LegacyMain.AllUnsentBound | News/main.py:231-235 | the whole pass offers at most `limit` × (number of sites) entries, a bound on the total rather than on each site |
| LegacyMain.AllUnsentStep | News/main.py:229-236 | one more site appends its own dispatches |
| LegacyMain.CheckNewsBounds | News/main.py:231-235 | whatever point a run of `check_news_and_send` reaches, it has offered at most 5 × (number of sites) entries in total, a bound on the total rather than on each site, and no link already in the sent file |
| LegacyMain.UnsentNewest | News/main.py:305-309 | with a one-entry window a site contributes nothing when its feed is empty, else its newest entry's dispatch |
| LegacyMain.LegacyPending.constructor | News/main.py:21 | `pending_news` starts empty |
| LegacyMain.LegacyPending.FirstRaiseFrom | News/main.py:130-146 | finds the first admin at or after a position whose send raises an error other than `TelegramForbiddenError` |
| LegacyMain.LegacyPending.FirstRaiseMeans | News/main.py:130-146 | some send raises exactly when the first raising position is an admin's |
| LegacyMain.LegacyPending.SendNewsToAdmin | News/main.py:115-147 | no image: nothing is stored; otherwise the item is stored under the md5 of the URL before sending, replacing an earlier item of that URL; admins are reached in order until the first non-Forbidden error, which propagates |
| LegacyMain.LegacyPending.StoredKeys | News/main.py:118-119 | after offers, every offered link has an item under its key, and no other key appears |
| LegacyMain.LegacyPending.StoredAppend | News/main.py:118-119 | one more offer stores its item under its key on top of the earlier store |
| LegacyMain.LegacyPending.StoredConcat | News/main.py:118-119 | two runs of offers store the same as one run of both |
| LegacyMain.LegacyPending.RaiseStep | News/main.py:233-234 | after offers that did not raise, one more offer either keeps that or raises last |
| LegacyMain.LegacyPending.RaiseConcat | News/main.py:228-236 | offers that went through, followed by a run that raised or not, raised or not as that run did |
| LegacyMain.LegacyPending.OfferEntry | News/main.py:231-235 | an entry is offered exactly when its link is unsent; it raises exactly when its offer does; the store gains its item |
| LegacyMain.LegacyPending.OfferNext | News/main.py:232-235 | one turn of the window loop extends the offers by the next entry's dispatch and keeps the raise and store invariants |
| LegacyMain.LegacyPending.OfferWindow | News/main.py:232-235 | the loop over one feed's window offers the unsent entries in order until one raises; the store holds exactly those offers' items |
| LegacyMain.LegacyPending.OfferSite | News/main.py:230-235 | one site's turn extends the pass by that site's unsent entries, or stops inside them at a raise |
| LegacyMain.LegacyPending.CheckNewsAndSend | News/main.py:227-236 | offers `AllUnsent` of the stored sites with a five-entry window when nothing raises; a raise ends the run inside the current site's window; the store holds exactly the offers made |
| LegacyMain.LegacyPending.OfferNewest | News/main.py:303-309 | a feed offers its newest entry when its link is unsent, and nothing when the feed is empty |
| LegacyMain.LegacyPending.PostSite | News/main.py:302-311 | one site's turn extends the pass by that site's newest unsent entry |
| LegacyMain.LegacyPending.PostLatest | News/main.py:302-311 | offers the newest unsent entry of every site in order, or stops at the site whose offer raised |
| LegacyMain.LegacyPending.CmdPostLatest | News/main.py:293-316 | a non-admin, or no sites: a refusal, and nothing is offered; otherwise the reply says "nothing new" exactly when nothing was offered, else the count of items offered, which is at most the number of sites |
| LegacyMain.LegacyPending.ApproveNews | News/main.py:151-195 | unknown id, missing image, or a failed channel send: no link is marked sent and the entry stays; success marks the link sent, removes the entry and tells every admin |
| LegacyMain.LegacyPending.RejectNews | News/main.py:198-213 | the entry is popped (idempotently), no link is marked sent, and the admins are told only when the admin message could be deleted |
| Text.Words | news_parsing/parser.py:42 | `split()` yields only non-empty words without whitespace |
| Text.Strip | news_parsing/site.py:29 | `strip()` returns a stripped text no longer than its input |
| Text.WordsStrip | news_parsing/site.py:29 | stripping keeps every word |
| Text.SplitOnce | news_parsing/site.py:29 | `split(sep, 1)` gives two parts exactly when the separator occurs; they rejoin to the text, and the first holds no separator |
| Text.SplitOn | news_parsing/site_poster.py:58 | `split(sep)` gives more than one part exactly when the separator occurs |
| Text.JoinSplitOn | news_parsing/site_poster.py:58-61 | joining the parts of `split(sep)` with `sep` gives back the text |
| Text.CollapseSpaces | news_parsing/site_poster.py:68 | `re.sub(r'\s+', ' ', …)` leaves no whitespace run and no other whitespace than a space, and never lengthens the text |
| Text.WordsCollapse | news_parsing/site_poster.py:68 | collapsing whitespace keeps every word |
| Text.CollapseCollapsed | news_parsing/site_poster.py:68 | collapsing is the identity on collapsed text |
| Text.Find | news_parsing/site_poster.py:52 | finds the first occurrence, or -1 when there is none |

## Left out

- NewsSender.Pending.SendRawNewsToAdmin / SendProcessedNewsToAdmin: the images folder is listed once per call, not once per attempt as news_sender.py:23 and :93 do; a folder that becomes empty between attempts (which makes the code return early) is not modelled.
- Telegram, HTTP, SQLite and file I/O are left out. Their outcomes are parameters: `Outbox`, `Outlet`, `imageExists`, `photoOk`/`textOk`, `SitePoster.Exchange`, the login flag, feeds as entry lists, and DeepSeek's reply. Message deletion, `callback.answer`, toasts and prints are not modelled.
- The outer `except` blocks of the send and handler functions are not modelled. Every failure the model can produce is already caught inside them. A broadcast failure to one admin is swallowed in the source and changes no state.
- The `get_*` accessors of news_sender.py (lines 160-164) return the maps themselves. The model reads the fields directly.
- `asyncio.sleep`, the retry back-off, the 600-second scheduler, startup and concurrent interleaving of handlers are left out. `Bot.FirstResponderWins` runs the two calls one after the other.
- `hashlib.md5` is the parameter `digest`. No injectivity is assumed. Every property holds per key, so two URLs with one digest share an entry as they would in the source.
- `random.choice` is an index oracle reduced modulo the number of files.
- `html.unescape` and `str.lower` are function parameters. Python's Unicode `\s` is taken to be the `str.isspace()` set of `Text.IsSpace`.
- Telegram measures caption length after entity parsing and in UTF-16 units. The model uses `len()` as the source does.
- `get_full_article` and the DeepSeek request are abstract. Their results are the `reply` parameter and the entry's `article` field.
- Bot.ApproveRawNews: follows the intended path. `process_with_deepseek`, which bot.py line 41 imports from parser.py, is not defined there; the model takes its result as the `rewrite` parameter. The code as written is `Bot.ApproveRawNewsAsWritten` (see Findings).
- Bot.ApproveProcessedNews: uses the corrected channel send `Bot.ChannelPost`. For a text over 1024 characters with both sends going through, the model publishes the item and removes the entry. The code as written reports a failed send and keeps the entry, as `Bot.LongTextNeverPublishedAsWritten` states (see Findings).
- Parser.Fallback: cleans with the corrected `Parser.CleanTextIntended`. The code as written uses `clean_text`, which also removes every blank line, so for title "A" and body "B" it gives "A\nB" where the model gives "A\n\nB" (see Findings).
- Parser.ParaphraseWithDeepseek: cleans the reply and the fallback with the corrected `clean_text`. The code as written loses every paragraph break (see Findings). The 180-word bound holds for both.
- Parser.ProcessEntry: its text is the paraphrase above, so it keeps paragraph breaks that the code as written drops.
- Parser.ParseFeedAndProcess: the window, the skipping of sent links and the count follow the code. The dispatched texts are those of `Parser.ProcessEntry` and carry the same difference.
- `send_news_to_admin` is imported by news_parsing/parser.py but not defined in the module it names. `Parser.ParseFeedAndProcess` returns the dispatches instead of sending them.
- `check_news_and_send` of news_parsing/parser.py (lines 129-132) is a loop calling `parse_feed_and_process` per site. It is not modelled separately.
- `send_long_message`, which bot.py imports, is not defined in news_sender.py. The corrected `Bot.ChannelPost` sends a long text as one follow-up message, and the outcome of that send is `textOk`. How Telegram splits messages over 4096 characters is not modelled.
- In `SitePoster.PostNewsToSiteSimple`, the encoding of the posted form (the Voyager i18n JSON fields, the hidden fields, the image file upload and closing the files) is not modelled. `posted` says which text fields the form carries.
- The debug and analysis functions of site_poster.py, translator_libre.py, news_parsing/main.py and the schema-only scripts are left out. So are `get_queue_size`, `clear_stuck_processing` and `process_next_from_queue`. The legacy `/addsite`, `/removesite` and `/start` handlers of News/main.py are also left out.
- Bot.FirstResponderWins: states one pairing, `post_to_both` followed by `approve_processed_news`. The other pairings follow from each handler's "not found" clause and are not restated.
- Database.NewsStore.CleanupOldPendingNews: the age test `date(ns.id) < date('now', '-7 days')` reads the row's autoincrement id as a date, not the time the link was sent. Which links pass it is the unconstrained set `stale`. So the model promises nothing about which links are old, only that published links survive.
- LegacyMain.LegacyPending.SendNewsToAdmin: the images listing and every send outcome are keyed by the URL offered. Two offers of one URL in a single run therefore pick the same image and meet the same outcomes. An admin's bare photo followed by its text counts as one send outcome.
- LegacyMain.LegacyPending.CmdPostLatest: the `posted` counter is stated as the number of offers made, `|attempted|`. When an offer raises, the handler ends without a reply, and the model returns `None`.
- LegacyMain.LegacyPending.ApproveNews: the channel's rejection of a caption over 1024 characters is written into `ChannelAccepts`. So a text over 1024 characters always makes the channel send fail.
- LegacyMain.LegacyPending.RejectNews: `deleted` covers the whole `try` block of lines 208-213. The model does not follow the notification loop past a failed send to one admin.

## Findings

| source | as written | input that shows it | evidently intended | confidence | as-written member | corrected member |
|---|---|---|---|---|---|---|
| news_parsing/parser.py:35 (and News/main.py:47) | `re.sub(r'\s+\n', '\n', text)`: `\s` also matches a newline, so every blank line collapses into one newline, and the `\n{3,}` rule on the next line can never apply | `"A\n\nB"` becomes `"A\nB"` | remove only spaces and tabs before a newline, keeping paragraph breaks (at most two newlines in a row) | not executed | Parser.CleanTextDropsBlankLine | Parser.CleanTextIntendedKeepsBlankLine |
| news_parsing/bot.py:41-42 | `from parser import process_with_deepseek`: parser.py defines `paraphrase_with_deepseek` and no `process_with_deepseek`, so the import raises `ImportError` outside any `try`, after the raw message was deleted; nothing is rewritten, stored or removed, and the admin gets no answer | approving any pending raw item | rewrite the item, send it as a processed item, then remove the raw entry and answer "sent for rewriting" | not executed | Bot.ApproveRawNewsAsWritten | Bot.ApproveRawNews |
| news_parsing/bot.py:109-110 | for a text over 1024 characters, the photo is posted without a caption, then `from news_sender import send_long_message` raises `ImportError` because news_sender.py defines no such function; the handler reports a failed send, and the item stays pending after a bare photo reached the channel | any processed text of 1025 characters with the photo send succeeding | send the text as a separate message after the photo and publish the item | not executed | Bot.LongTextNeverPublishedAsWritten | Bot.ChannelPostDelivers |
