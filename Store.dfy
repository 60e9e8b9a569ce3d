/** The Podcast table (`id` is its primary key) and the two operations on it:
    `doImportOpml`, which inserts the podcasts read from an OPML file one
    statement at a time and ignores each statement's error, and
    `doSelectPodcast`, which lists the rows `ORDER BY name, id` with `name`
    compared under NOCASE. */
module Store {
  import opened Types
  import opened NoCase
  import Opml

  /** The table after one `INSERT INTO Podcast (id, name, url)`: a row whose id
      is already present violates the primary key and changes nothing. */
  function Inserted(t: map<int, Row>, p: Podcast): map<int, Row>
  {
    if p.id in t then t else t[p.id := RowOf(p)]
  }

  /** The table after inserting the podcasts in order, each failed insert
      skipped. */
  function ImportAll(t: map<int, Row>, ps: seq<Podcast>): map<int, Row>
    decreases |ps|
  {
    if ps == [] then t else Inserted(ImportAll(t, ps[..|ps| - 1]), ps[|ps| - 1])
  }

  /** The ids of a list of podcasts. */
  function IdsOf(ps: seq<Podcast>): set<int>
  {
    set i | 0 <= i < |ps| :: ps[i].id
  }

  /** Rows already in the table are never changed by an import. */
  lemma {:induction false} ImportKeepsRows(t: map<int, Row>, ps: seq<Podcast>)
    ensures forall id :: id in t ==> id in ImportAll(t, ps) && ImportAll(t, ps)[id] == t[id]
    decreases |ps|
  {
    if ps != [] {
      ImportKeepsRows(t, ps[..|ps| - 1]);
    }
  }

  /** An import adds exactly the ids of the imported podcasts. */
  lemma {:induction false} ImportKeys(t: map<int, Row>, ps: seq<Podcast>)
    ensures ImportAll(t, ps).Keys == t.Keys + IdsOf(ps)
    decreases |ps|
  {
    if ps != [] {
      var init := ps[..|ps| - 1];
      ImportKeys(t, init);
      IdsOfSnoc(ps);
    }
  }

  lemma IdsOfSnoc(ps: seq<Podcast>)
    requires ps != []
    ensures IdsOf(ps) == IdsOf(ps[..|ps| - 1]) + {ps[|ps| - 1].id}
  {
  }

  /** Podcasts with pairwise different ids have as many ids as podcasts. */
  lemma {:induction false} DistinctIdsSize(ps: seq<Podcast>)
    requires forall i, j :: 0 <= i < j < |ps| ==> ps[i].id != ps[j].id
    ensures |IdsOf(ps)| == |ps|
    decreases |ps|
  {
    if ps != [] {
      var init := ps[..|ps| - 1];
      IdsOfSnoc(ps);
      DistinctIdsSize(init);
      assert ps[|ps| - 1].id !in IdsOf(init);
    }
  }

  /** A podcast whose id is neither in the table nor used earlier in the list
      is stored with its own name and URL: the first podcast with a new id wins. */
  lemma {:induction false} ImportFirstWins(t: map<int, Row>, ps: seq<Podcast>, i: int)
    requires 0 <= i < |ps| && ps[i].id !in t
    requires forall j :: 0 <= j < i ==> ps[j].id != ps[i].id
    ensures ps[i].id in ImportAll(t, ps) && ImportAll(t, ps)[ps[i].id] == RowOf(ps[i])
    decreases |ps|
  {
    var init := ps[..|ps| - 1];
    if i < |ps| - 1 {
      ImportFirstWins(t, init, i);
    } else {
      ImportKeys(t, init);
      assert ps[i].id !in IdsOf(init);
    }
  }

  /** When every id is already taken, an import changes nothing. */
  lemma {:induction false} ImportAllPresent(t: map<int, Row>, ps: seq<Podcast>)
    requires IdsOf(ps) <= t.Keys
    ensures ImportAll(t, ps) == t
    decreases |ps|
  {
    if ps != [] {
      var init := ps[..|ps| - 1];
      assert IdsOf(init) <= IdsOf(ps) by {
        forall id | id in IdsOf(init) ensures id in IdsOf(ps) {
          var i :| 0 <= i < |init| && init[i].id == id;
          assert ps[i].id == id;
        }
      }
      ImportAllPresent(t, init);
      assert ps[|ps| - 1].id in IdsOf(ps);
    }
  }

  /** Importing the same list a second time changes nothing. */
  lemma ImportIdempotent(t: map<int, Row>, ps: seq<Podcast>)
    ensures ImportAll(ImportAll(t, ps), ps) == ImportAll(t, ps)
  {
    ImportKeys(t, ps);
    ImportAllPresent(ImportAll(t, ps), ps);
  }

  /** Into an empty table, the podcasts read from an OPML file land as one row
      per item, keyed by position. */
  lemma ImportSubscriptionsIntoEmpty(items: seq<OpmlItem>)
    ensures ImportAll(map[], Opml.PodcastsFrom(items))
         == map i | 0 <= i < |items| :: Row(items[i].text, items[i].xmlUrl)
  {
    var ps := Opml.PodcastsFrom(items);
    var expected := map i | 0 <= i < |items| :: Row(items[i].text, items[i].xmlUrl);
    var got := ImportAll(map[], ps);
    ImportKeys(map[], ps);
    assert got.Keys == expected.Keys by {
      forall id | id in IdsOf(ps) ensures id in expected.Keys {
        var i :| 0 <= i < |ps| && ps[i].id == id;
      }
      forall id | id in expected.Keys ensures id in IdsOf(ps) {
        assert ps[id].id == id;
      }
    }
    forall id | id in expected.Keys ensures got[id] == expected[id] {
      ImportFirstWins(map[], ps, id);
    }
  }

  /** The row `rows.Scan(&p.Id, &p.Name, &p.Url)` reads back into a `Podcast`. */
  function Listed(id: int, row: Row): Podcast
  {
    Podcast(id, row.name, row.url, map[])
  }

  /** `ORDER BY name, id`: by name under NOCASE, then by id. */
  predicate Before(p: Podcast, q: Podcast)
  {
    NoCaseLess(p.name, q.name) || (NoCaseEqual(p.name, q.name) && p.id < q.id)
  }

  lemma BeforeIrreflexive(p: Podcast)
    ensures !Before(p, p)
  {
    LexLessIrreflexive(Fold(p.name));
  }

  lemma BeforeTransitive(p: Podcast, q: Podcast, s: Podcast)
    requires Before(p, q) && Before(q, s)
    ensures Before(p, s)
  {
    if NoCaseLess(p.name, q.name) && NoCaseLess(q.name, s.name) {
      LexLessTransitive(Fold(p.name), Fold(q.name), Fold(s.name));
    }
  }

  lemma BeforeTotal(p: Podcast, q: Podcast)
    requires p.id != q.id
    ensures Before(p, q) || Before(q, p)
  {
    if !NoCaseEqual(p.name, q.name) {
      LexLessTotal(Fold(p.name), Fold(q.name));
    }
  }

  predicate Sorted(s: seq<Podcast>)
  {
    forall i, j :: 0 <= i < j < |s| ==> Before(s[i], s[j])
  }

  /** The result of `SELECT id, name, url FROM Podcast ORDER BY name, id`: every
      row exactly once, and nothing else, in that order. */
  ghost predicate IsListing(rows: map<int, Row>, r: seq<Podcast>)
  {
    && |r| == |rows|
    && Sorted(r)
    && forall p :: p in r <==> p.id in rows && p == Listed(p.id, rows[p.id])
  }

  /** `s` with `e` put in at its place in the order. */
  function InsertSorted(s: seq<Podcast>, e: Podcast): (r: seq<Podcast>)
    requires Sorted(s)
    requires forall i :: 0 <= i < |s| ==> s[i].id != e.id
    ensures |r| == |s| + 1 && Sorted(r)
    ensures forall p :: p in r <==> p in s || p == e
    decreases |s|
  {
    if s == [] then [e]
    else if Before(e, s[0]) then
      assert forall j :: 0 <= j < |s| ==> Before(e, s[j]) by {
        forall j | 0 < j < |s| ensures Before(e, s[j]) {
          BeforeTransitive(e, s[0], s[j]);
        }
      }
      [e] + s
    else
      BeforeTotal(e, s[0]);
      var rest := InsertSorted(s[1..], e);
      assert forall p :: p in rest ==> Before(s[0], p) by {
        forall p | p in rest ensures Before(s[0], p) {
          if p in s[1..] {
            var j :| 0 <= j < |s[1..]| && s[1..][j] == p;
            assert s[j + 1] == p;
          }
        }
      }
      assert s == [s[0]] + s[1..];
      [s[0]] + rest
  }

  /** Two sorted sequences with the same elements are equal. */
  lemma {:induction false} SortedUnique(a: seq<Podcast>, b: seq<Podcast>)
    requires Sorted(a) && Sorted(b)
    requires forall p :: p in a <==> p in b
    ensures a == b
    decreases |a|
  {
    assert a != [] ==> a[0] in b;
    assert b != [] ==> b[0] in a;
    if a != [] && b != [] {
      if a[0] != b[0] {
        var i :| 0 <= i < |a| && a[i] == b[0];
        var j :| 0 <= j < |b| && b[j] == a[0];
        BeforeIrreflexive(a[0]);
        BeforeIrreflexive(b[0]);
        assert Before(a[0], b[0]) && Before(b[0], a[0]);
        BeforeTransitive(a[0], b[0], a[0]);
        assert false;
      }
      NotInTail(a);
      NotInTail(b);
      assert a == [a[0]] + a[1..] && b == [b[0]] + b[1..];
      forall p ensures p in a[1..] <==> p in b[1..] {
        assert p in a <==> p == a[0] || p in a[1..];
        assert p in b <==> p == b[0] || p in b[1..];
      }
      SortedUnique(a[1..], b[1..]);
    }
  }

  /** The head of a sorted sequence does not recur in its tail. */
  lemma NotInTail(s: seq<Podcast>)
    requires Sorted(s) && s != []
    ensures s[0] !in s[1..]
  {
    if s[0] in s[1..] {
      var j :| 0 <= j < |s[1..]| && s[1..][j] == s[0];
      assert Before(s[0], s[j + 1]);
      BeforeIrreflexive(s[0]);
    }
  }

  /** The listing of a table is determined by the table. */
  lemma ListingUnique(rows: map<int, Row>, a: seq<Podcast>, b: seq<Podcast>)
    requires IsListing(rows, a) && IsListing(rows, b)
    ensures a == b
  {
    SortedUnique(a, b);
  }

  /** After the podcasts of an OPML file are imported into an empty table, the
      listing shows one row per outline item, with its name and URL. */
  lemma ListingAfterFreshImport(items: seq<OpmlItem>, r: seq<Podcast>)
    requires IsListing(ImportAll(map[], Opml.PodcastsFrom(items)), r)
    ensures |r| == |items|
    ensures forall i :: 0 <= i < |items| ==> Listed(i, Row(items[i].text, items[i].xmlUrl)) in r
  {
    var ps := Opml.PodcastsFrom(items);
    ImportSubscriptionsIntoEmpty(items);
    ImportKeys(map[], ps);
    DistinctIdsSize(ps);
    assert |ImportAll(map[], ps)| == |ImportAll(map[], ps).Keys|;
  }

  /** A set with elements has a member to pick. */
  lemma HasMember(s: set<int>)
    requires |s| > 0
    ensures exists x :: x in s
  {
    if forall x :: x !in s {
      assert false;
    }
  }

  /** What `doImportOpml` did: the read panicked, it found nothing to import,
      or it ran the inserts for these podcasts. */
  datatype ImportOutcome = Aborted | NoSubscriptionsFound | Imported(podcasts: seq<Podcast>)

  /** The Podcast table of the database file. */
  class PodcastTable {
    var rows: map<int, Row>

    /** The table as it is stored when the program opens the database. */
    constructor (stored: map<int, Row>)
      ensures rows == stored
    {
      rows := stored;
    }

    /** One execution of the prepared insert; `ok` is false when the id is
        already taken, and then the table is left as it was. */
    method Insert(p: Podcast) returns (ok: bool)
      modifies this
      ensures ok <==> p.id !in old(rows)
      ensures ok ==> rows == old(rows)[p.id := Row(p.name, p.url)]
      ensures !ok ==> rows == old(rows)
      ensures rows == Inserted(old(rows), p)
    {
      ok := p.id !in rows;
      if ok {
        rows := rows[p.id := RowOf(p)];
      }
    }

    /** The insert loop of `doImportOpml`: one insert per podcast, in order,
        with each insert's error dropped, then a single commit. */
    method ImportPodcasts(ps: seq<Podcast>)
      modifies this
      ensures rows == ImportAll(old(rows), ps)
    {
      for i := 0 to |ps|
        invariant rows == ImportAll(old(rows), ps[..i])
      {
        assert ps[..i + 1][..i] == ps[..i];
        var _ := Insert(ps[i]);
      }
      assert ps[..|ps|] == ps;
    }

    /** `doImportOpml`: read the OPML file and, when it yields any podcasts,
        insert them; an empty list writes nothing. */
    method DoImportOpml(source: OpmlSource) returns (outcome: ImportOutcome)
      modifies this
      ensures outcome.Aborted? <==> source.Malformed?
      ensures outcome.NoSubscriptionsFound? <==> source.Unreadable? || (source.Parsed? && source.items == [])
      ensures outcome.Imported? ==> outcome.podcasts == Opml.PodcastsFrom(source.items)
      ensures rows == if outcome.Imported? then ImportAll(old(rows), outcome.podcasts) else old(rows)
    {
      var read := Opml.ReadSubscriptionsFromOpml(source);
      match read {
        case Panicked =>
          outcome := Aborted;
        case Completed(podcasts) =>
          if |podcasts| > 0 {
            ImportPodcasts(podcasts);
            outcome := Imported(podcasts);
          } else {
            outcome := NoSubscriptionsFound;
          }
      }
    }

    /** `doSelectPodcast`: all rows, ordered by name under NOCASE and then by
        id. The table's rows are taken one at a time and put in place. */
    method SelectPodcasts() returns (r: seq<Podcast>)
      ensures IsListing(rows, r)
    {
      var pending := rows.Keys;
      r := [];
      while pending != {}
        invariant pending <= rows.Keys
        invariant Sorted(r)
        invariant |r| + |pending| == |rows.Keys|
        invariant forall p :: p in r <==> p.id in rows.Keys - pending && p == Listed(p.id, rows[p.id])
        decreases pending
      {
        HasMember(pending);
        var id :| id in pending;
        ghost var done := rows.Keys - pending;
        assert forall i :: 0 <= i < |r| ==> r[i] in r;
        r := InsertSorted(r, Listed(id, rows[id]));
        pending := pending - {id};
        assert rows.Keys - pending == done + {id};
      }
      assert rows.Keys - pending == rows.Keys;
    }
  }
}
