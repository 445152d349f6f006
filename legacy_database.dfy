/** The first-generation store of News/database.py: the `sites` table of
    feed URLs and the `news_sent` table of links already published to the
    channel. It shares the row semantics of `Database`; unlike its successor
    it has no published table and no operation that ever deletes from
    `news_sent`. */
module LegacyDatabase {
  import opened Database

  class SiteStore {
    var sites: seq<string>
    var sent: set<string>

    ghost predicate Valid()
      reads this
    {
      NoDuplicates(sites)
    }

    /** `init_db` on a fresh database file. */
    constructor ()
      ensures Valid() && sites == [] && sent == {}
    {
      sites, sent := [], {};
    }

    /** `add_site`: `INSERT OR IGNORE INTO sites`. */
    method AddSite(url: string)
      requires Valid()
      modifies this
      ensures Valid()
      ensures sites == Inserted(old(sites), url)
      ensures sent == old(sent)
    {
      sites := Inserted(sites, url);
    }

    /** `remove_site`: `DELETE FROM sites WHERE url=?`. */
    method RemoveSite(url: string)
      requires Valid()
      modifies this
      ensures Valid()
      ensures sites == Removed(old(sites), url)
      ensures sent == old(sent)
    {
      sites := Removed(sites, url);
    }

    /** `get_sites`: every stored URL, each exactly once. */
    function GetSites(): (urls: seq<string>)
      reads this
      requires Valid()
      ensures NoDuplicates(urls)
      ensures forall u :: u in urls <==> u in sites
    {
      sites
    }

    /** `is_news_sent`: a point lookup in `news_sent`. */
    predicate IsNewsSent(link: string)
      reads this
    {
      link in sent
    }

    /** `mark_news_sent`: `INSERT OR IGNORE INTO news_sent`; `news_sent`
        only ever grows. */
    method MarkNewsSent(link: string)
      requires Valid()
      modifies this
      ensures Valid()
      ensures sent == old(sent) + {link}
      ensures old(sent) <= sent && IsNewsSent(link)
      ensures sites == old(sites)
    {
      sent := sent + {link};
    }
  }
}
