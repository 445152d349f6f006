/** The SQLite store of news_parsing/database.py: the `sites` table of feed
    URLs (a UNIQUE column, read back in row order), the `news_sent` table of
    links handed to moderation and the `published_news` table of links that
    were published. Every statement the module runs is an idempotent insert,
    a delete by key or a point lookup, so the tables are a duplicate-free
    sequence and two sets. */
module Database {

  /** No value occurs twice in `s`: what a UNIQUE column guarantees. */
  predicate NoDuplicates(s: seq<string>) {
    forall i, j :: 0 <= i < j < |s| ==> s[i] != s[j]
  }

  /** The rows after `INSERT OR IGNORE`: `x` is appended unless present. */
  function Inserted(rows: seq<string>, x: string): (r: seq<string>)
    ensures x in r
    ensures forall y :: y in r <==> y in rows || y == x
    ensures x in rows ==> r == rows
    ensures x !in rows ==> r == rows + [x]
    ensures NoDuplicates(rows) ==> NoDuplicates(r)
  {
    if x in rows then rows else rows + [x]
  }

  /** The rows after `DELETE ... WHERE url = x`, the others in their order. */
  function Removed(rows: seq<string>, x: string): (r: seq<string>)
    ensures x !in r
    ensures forall y :: y in r <==> y in rows && y != x
    ensures x !in rows ==> r == rows
    ensures NoDuplicates(rows) ==> NoDuplicates(r)
    ensures NoDuplicates(rows) && x in rows ==> |r| == |rows| - 1
    decreases |rows|
  {
    if rows == [] then []
    else
      var rest := Removed(rows[1..], x);
      NoDuplicatesTail(rows);
      (if rows[0] == x then [] else [rows[0]]) + rest
  }

  /** The head of a duplicate-free sequence does not occur in its tail. */
  lemma NoDuplicatesTail(rows: seq<string>)
    requires rows != []
    ensures NoDuplicates(rows) ==> NoDuplicates(rows[1..]) && rows[0] !in rows[1..]
  {
  }

  /** Adding a site twice leaves the table as adding it once. */
  lemma InsertedIdempotent(rows: seq<string>, x: string)
    ensures Inserted(Inserted(rows, x), x) == Inserted(rows, x)
  {
  }

  /** Removing a site twice leaves the table as removing it once. */
  lemma RemovedIdempotent(rows: seq<string>, x: string)
    ensures Removed(Removed(rows, x), x) == Removed(rows, x)
  {
  }

  /** Where row `i` lands after removing `x`: the number of rows before it
      that are kept. */
  function KeptAt(rows: seq<string>, x: string, i: nat): nat
    requires i < |rows|
    decreases |rows|
  {
    if i == 0 then 0 else (if rows[0] == x then 0 else 1) + KeptAt(rows[1..], x, i - 1)
  }

  /** A row other than `x` is found after removal at its kept position. */
  lemma {:induction false} RemovedAt(rows: seq<string>, x: string, i: nat)
    requires i < |rows| && rows[i] != x
    ensures KeptAt(rows, x, i) < |Removed(rows, x)| && Removed(rows, x)[KeptAt(rows, x, i)] == rows[i]
    decreases |rows|
  {
    if i > 0 {
      assert rows[1..][i - 1] == rows[i];
      RemovedAt(rows[1..], x, i - 1);
    }
  }

  /** Kept positions grow with the row index. */
  lemma {:induction false} KeptAtGrows(rows: seq<string>, x: string, i: nat, j: nat)
    requires i < j < |rows| && rows[i] != x
    ensures KeptAt(rows, x, i) < KeptAt(rows, x, j)
    decreases |rows|
  {
    if i > 0 {
      assert rows[1..][i - 1] == rows[i];
      KeptAtGrows(rows[1..], x, i - 1, j - 1);
    }
  }

  /** Removing a site keeps every other site, in its original order:
      two kept rows appear after removal in the order they had before. */
  lemma RemovedKeepsOrder(rows: seq<string>, x: string, i: nat, j: nat)
    requires i < j < |rows| && rows[i] != x && rows[j] != x
    ensures exists a, b :: 0 <= a < b < |Removed(rows, x)| && Removed(rows, x)[a] == rows[i] && Removed(rows, x)[b] == rows[j]
  {
    RemovedAt(rows, x, i);
    RemovedAt(rows, x, j);
    KeptAtGrows(rows, x, i, j);
    var a, b := KeptAt(rows, x, i), KeptAt(rows, x, j);
    assert 0 <= a < b < |Removed(rows, x)| && Removed(rows, x)[a] == rows[i] && Removed(rows, x)[b] == rows[j];
  }

  class NewsStore {
    var sites: seq<string>
    var sent: set<string>
    var published: set<string>

    /** The `sites` table never holds a URL twice. */
    ghost predicate Valid()
      reads this
    {
      NoDuplicates(sites)
    }

    /** `init_db` on a fresh database file: three empty tables. */
    constructor ()
      ensures Valid()
      ensures sites == [] && sent == {} && published == {}
    {
      sites, sent, published := [], {}, {};
    }

    /** `add_site`: `INSERT OR IGNORE INTO sites`. */
    method AddSite(url: string)
      requires Valid()
      modifies this
      ensures Valid()
      ensures sites == Inserted(old(sites), url)
      ensures sent == old(sent) && published == old(published)
    {
      sites := Inserted(sites, url);
    }

    /** `remove_site`: `DELETE FROM sites WHERE url=?`. */
    method RemoveSite(url: string)
      requires Valid()
      modifies this
      ensures Valid()
      ensures sites == Removed(old(sites), url)
      ensures sent == old(sent) && published == old(published)
    {
      sites := Removed(sites, url);
    }

    /** `get_sites`: every stored URL, each exactly once. */
    function GetSites(): (urls: seq<string>)
      reads this
      requires Valid()
      ensures NoDuplicates(urls)
      ensures forall u :: u in urls <==> u in sites
      ensures |urls| == |sites|
    {
      sites
    }

    /** `is_news_sent`: a point lookup in `news_sent`. */
    predicate IsNewsSent(link: string)
      reads this
    {
      link in sent
    }

    /** `is_news_published`: a point lookup in `published_news`. */
    predicate IsNewsPublished(link: string)
      reads this
    {
      link in published
    }

    /** `mark_news_sent`: `INSERT OR IGNORE INTO news_sent`. */
    method MarkNewsSent(link: string)
      requires Valid()
      modifies this
      ensures Valid()
      ensures sent == old(sent) + {link}
      ensures IsNewsSent(link)
      ensures sites == old(sites) && published == old(published)
    {
      sent := sent + {link};
    }

    /** `mark_news_published`: `INSERT OR IGNORE INTO published_news`. */
    method MarkNewsPublished(link: string)
      requires Valid()
      modifies this
      ensures Valid()
      ensures published == old(published) + {link}
      ensures IsNewsPublished(link)
      ensures sites == old(sites) && sent == old(sent)
    {
      published := published + {link};
    }

    /** `cleanup_old_pending_news`: deletes from `news_sent` the links that
        pass the test `date(ns.id) < date('now', '-7 days')` (for the
        default `days` of 7) and have no `published_news` row. That test
        reads the row's autoincrement id as a date, not an insertion time,
        so which links pass it is given as the set `stale`, unconstrained. A link that was published is never
        removed, and `published_news` is not touched. */
    method CleanupOldPendingNews(stale: set<string>)
      requires Valid()
      modifies this
      ensures Valid()
      ensures sent == old(sent) - (stale - old(published))
      ensures old(sent) * old(published) <= sent
      ensures forall l :: l in old(sent) && l !in sent ==> l in stale && l !in published
      ensures sites == old(sites) && published == old(published)
    {
      sent := sent - (stale - published);
    }
  }
}
