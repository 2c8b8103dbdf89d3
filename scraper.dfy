/**
 * The scrape loop (isro_scrape/scrape.py:14-87) over abstract inputs.
 *
 * The listing page is given as the sequence of anchors the selector found,
 * or None when fetching it failed.  For every anchor, pages[i] is what
 * fetching its detail page gives: None when the request, the status check or
 * the parse raises, otherwise the tables the selector found, each a sequence
 * of rows, each row the texts of its td cells.
 */
module Scraper {
  import opened Wrappers
  import opened Seqs
  import opened Text
  import opened Keys
  import opened Links
  import opened Dicts

  const BaseUrl: string := "https://www.isro.gov.in"
  const ListUrl: string := BaseUrl + "/SpacecraftMissions.html"

  /** An anchor of the listing page: its text content and its href attribute. */
  datatype Anchor = Anchor(text: string, href: string)

  /** The texts cell.text of the td cells of one table row. */
  type Row = seq<string>
  type Table = seq<Row>
  /** The matching tables of a fetched detail page. */
  type Page = seq<Table>

  /** The "name" key that holds the listing title, and the "id" key written last. */
  const NameKey: string := "name"
  const IdKey: string := "id"

  // ---------------------------------------------------------------------
  // Detail page extraction (scrape.py:52-64)
  // ---------------------------------------------------------------------

  /** The (key, value) pair a row gives: only a row of exactly two cells whose
      normalised label and collapsed value are both non-empty gives one. */
  function RowFact(row: Row): Option<(string, string)> {
    if |row| == 2 then
      var key := NormalizeKey(row[0]);
      var val := Collapse(row[1]);
      if key != [] && val != [] then Some((key, val)) else None
    else None
  }

  /** The pairs some rows give, in row order. */
  function RowsPairs(rows: seq<Row>): seq<(string, string)> {
    FilterMap(rows, RowFact)
  }

  /** The pairs all tables give, table by table, in row order. */
  function Pairs(tables: seq<Table>): seq<(string, string)> {
    FlatFilterMap(tables, RowFact)
  }

  /** dt[key] = val for each pair, in order. */
  function PutAll(d: Dict, ps: seq<(string, string)>): Dict
    decreases |ps|
  {
    if ps == [] then d
    else
      var p := ps[|ps| - 1];
      Put(PutAll(d, ps[..|ps| - 1]), p.0, Str(p.1))
  }

  /** The record a mission page gives: {"name": title} updated by every pair. */
  function BuildRecord(title: string, tables: seq<Table>): Dict {
    PutAll(Singleton(NameKey, Str(title)), Pairs(tables))
  }

  /** The value of the last pair with key k, if any. */
  function LastValue(ps: seq<(string, string)>, k: string): Option<string>
    decreases |ps|
  {
    if ps == [] then None
    else if ps[|ps| - 1].0 == k then Some(ps[|ps| - 1].1)
    else LastValue(ps[..|ps| - 1], k)
  }

  /** What one more row does to the pairs seen so far and to the record built from them. */
  lemma RowStep(init: Dict, before: seq<(string, string)>, rows: seq<Row>, r: nat)
    requires r < |rows|
    ensures RowFact(rows[r]).Some? ==>
      PutAll(init, before + RowsPairs(rows[..r + 1])) ==
        Put(PutAll(init, before + RowsPairs(rows[..r])), RowFact(rows[r]).value.0, Str(RowFact(rows[r]).value.1))
    ensures RowFact(rows[r]).Some? ==> before + RowsPairs(rows[..r + 1]) != []
    ensures RowFact(rows[r]).None? ==>
      before + RowsPairs(rows[..r + 1]) == before + RowsPairs(rows[..r])
  {
    FilterMapSnoc(rows, RowFact, r);
    var ps := before + RowsPairs(rows[..r]);
    if RowFact(rows[r]).Some? {
      var p := RowFact(rows[r]).value;
      Assoc(before, RowsPairs(rows[..r]), [p]);
      PutAllSnoc(init, ps, p);
    }
  }

  lemma PutAllSnoc(d: Dict, ps: seq<(string, string)>, p: (string, string))
    ensures PutAll(d, ps + [p]) == Put(PutAll(d, ps), p.0, Str(p.1))
  {
    assert (ps + [p])[..|ps|] == ps;
  }

  /** The nested table and row loops of scrape.py:52-64. */
  method ExtractRecord(title: string, tables: seq<Table>) returns (dt: Dict, foundInfo: bool)
    ensures dt == BuildRecord(title, tables)
    ensures foundInfo <==> Pairs(tables) != []
  {
    ghost var init := Singleton(NameKey, Str(title));
    dt := Singleton(NameKey, Str(title));
    foundInfo := false;
    var t := 0;
    while t < |tables|
      invariant 0 <= t <= |tables|
      invariant dt == PutAll(init, Pairs(tables[..t]))
      invariant foundInfo <==> Pairs(tables[..t]) != []
    {
      var rows := tables[t];
      ghost var before := Pairs(tables[..t]);
      var r := 0;
      assert rows[..0] == [] && before + [] == before;
      while r < |rows|
        invariant 0 <= r <= |rows|
        invariant dt == PutAll(init, before + RowsPairs(rows[..r]))
        invariant foundInfo <==> before + RowsPairs(rows[..r]) != []
      {
        var cols := rows[r];
        RowStep(init, before, rows, r);
        if |cols| == 2 {
          var key := NormalizeKey(cols[0]);
          var val := Collapse(cols[1]);
          if key != [] && val != [] {
            dt := Put(dt, key, Str(val));
            foundInfo := true;
          }
        }
        r := r + 1;
      }
      assert rows[..|rows|] == rows;
      FlatFilterMapSnoc(tables, RowFact, t);
      t := t + 1;
    }
    assert tables[..|tables|] == tables;
  }

  // ---------------------------------------------------------------------
  // Properties of extraction
  // ---------------------------------------------------------------------

  /** A row gives a pair exactly when it has two cells, its lower-cased and
      stripped label holds a character of [a-z0-9\s], and its value is not all
      whitespace; the key is then made of a-z, 0-9 and single "_", and the
      value has visible ends, no whitespace but single spaces. */
  lemma RowFactShape(row: Row)
    ensures RowFact(row).Some? <==>
      && |row| == 2
      && (exists i :: 0 <= i < |Step1(row[0])| && IsKeyChar(Step1(row[0])[i]))
      && !AllWhitespace(row[1])
    ensures RowFact(row).Some? ==>
      var (key, val) := RowFact(row).value;
      && key != [] && (forall i :: 0 <= i < |key| ==> IsNormalChar(key[i])) && NoDoubled(key, '_')
      && val != [] && IsVisible(val[0]) && IsVisible(val[|val| - 1])
      && (forall i :: 0 <= i < |val| && IsWhitespace(val[i]) ==> val[i] == ' ')
      && NoDoubled(val, ' ')
  {
    if |row| == 2 {
      NormalizeKeyEmpty(row[0]);
      NormalizeKeyShape(row[0]);
      CollapseShape(row[1]);
    }
  }

  /** Some row gives the pair p. */
  ghost predicate GivenBy(rows: seq<Row>, p: (string, string)) {
    exists r :: 0 <= r < |rows| && RowFact(rows[r]) == Some(p)
  }

  /** Every pair of some rows is the pair of one of them. */
  lemma RowsPairsSound(rows: seq<Row>)
    ensures forall k :: 0 <= k < |RowsPairs(rows)| ==> GivenBy(rows, RowsPairs(rows)[k])
  {
    FilterMapSound(rows, RowFact);
    forall k | 0 <= k < |RowsPairs(rows)| ensures GivenBy(rows, RowsPairs(rows)[k]) {
      var r :| 0 <= r < |rows| && (RowFact)(rows[r]) == Some(FilterMap(rows, RowFact)[k]);
      assert RowFact(rows[r]) == Some(RowsPairs(rows)[k]);
    }
  }

  /** The pair of every row that gives one is among the pairs. */
  lemma RowsPairsComplete(rows: seq<Row>)
    ensures forall r :: 0 <= r < |rows| && RowFact(rows[r]).Some? ==> RowFact(rows[r]).value in RowsPairs(rows)
  {
    FilterMapComplete(rows, RowFact);
  }

  /** Some row of some table gives the pair p. */
  ghost predicate GivenByTables(tables: seq<Table>, p: (string, string)) {
    exists t, r :: 0 <= t < |tables| && 0 <= r < |tables[t]| && RowFact(tables[t][r]) == Some(p)
  }

  /** Every pair of a page is the pair of one of its table rows. */
  lemma PairsSound(tables: seq<Table>)
    ensures forall k :: 0 <= k < |Pairs(tables)| ==> GivenByTables(tables, Pairs(tables)[k])
  {
    FlatFilterMapSound(tables, RowFact);
    forall k | 0 <= k < |Pairs(tables)| ensures GivenByTables(tables, Pairs(tables)[k]) {
      var t, r :| 0 <= t < |tables| && 0 <= r < |tables[t]| &&
        (RowFact)(tables[t][r]) == Some(FlatFilterMap(tables, RowFact)[k]);
      assert RowFact(tables[t][r]) == Some(Pairs(tables)[k]);
    }
  }

  /** The pair of every table row that gives one is among the pairs of the page. */
  lemma PairsComplete(tables: seq<Table>)
    ensures forall t, r :: 0 <= t < |tables| && 0 <= r < |tables[t]| && RowFact(tables[t][r]).Some? ==>
      RowFact(tables[t][r]).value in Pairs(tables)
  {
    FlatFilterMapComplete(tables, RowFact);
  }

  /** The pairs come table by table, and within a table row by row. */
  lemma PairsInOrder(tables: seq<Table>, t: nat, r: nat)
    requires t < |tables| && r < |tables[t]|
    ensures Pairs(tables[..t + 1]) == Pairs(tables[..t]) + RowsPairs(tables[t])
    ensures RowsPairs(tables[t][..r + 1]) ==
      RowsPairs(tables[t][..r]) + (if RowFact(tables[t][r]).Some? then [RowFact(tables[t][r]).value] else [])
  {
    FlatFilterMapSnoc(tables, RowFact, t);
    FilterMapSnoc(tables[t], RowFact, r);
  }

  /** found_info is set exactly when some row of some table gives a pair. */
  lemma FoundInfoIffFact(tables: seq<Table>)
    ensures Pairs(tables) == [] <==>
      forall t, r :: 0 <= t < |tables| && 0 <= r < |tables[t]| ==> RowFact(tables[t][r]).None?
  {
    FlatFilterMapEmpty(tables, RowFact);
  }

  /** Pair i is the last pair with key k. */
  predicate IsLastWith(ps: seq<(string, string)>, k: string, i: nat) {
    i < |ps| && ps[i].0 == k && forall j :: i < j < |ps| ==> ps[j].0 != k
  }

  /** LastValue is None exactly when no pair has key k. */
  lemma {:induction false} LastValueNone(ps: seq<(string, string)>, k: string)
    ensures LastValue(ps, k).None? <==> forall i :: 0 <= i < |ps| ==> ps[i].0 != k
    decreases |ps|
  {
    if ps != [] {
      var n := |ps| - 1;
      LastValueNone(ps[..n], k);
      assert forall i :: 0 <= i < n ==> ps[..n][i] == ps[i];
    }
  }

  /** A LastValue of v comes from the last pair with key k, whose value is v. */
  lemma {:induction false} LastValueSome(ps: seq<(string, string)>, k: string)
    ensures LastValue(ps, k).Some? ==>
      exists i :: 0 <= i < |ps| && IsLastWith(ps, k, i) && ps[i].1 == LastValue(ps, k).value
    decreases |ps|
  {
    if ps != [] {
      var n := |ps| - 1;
      if ps[n].0 == k {
        assert IsLastWith(ps, k, n);
      } else if LastValue(ps, k).Some? {
        LastValueSome(ps[..n], k);
        var i :| 0 <= i < n && IsLastWith(ps[..n], k, i) && ps[..n][i].1 == LastValue(ps[..n], k).value;
        assert ps[..n][i] == ps[i];
        assert forall j :: i < j < n ==> ps[..n][j] == ps[j];
        assert IsLastWith(ps, k, i);
      }
    }
  }

  /** The value of the last pair with key k: None exactly when no pair has
      key k, otherwise the value of the last pair that has it. */
  lemma LastValueSpec(ps: seq<(string, string)>, k: string)
    ensures LastValue(ps, k).None? <==> forall i :: 0 <= i < |ps| ==> ps[i].0 != k
    ensures LastValue(ps, k).Some? ==>
      exists i :: 0 <= i < |ps| && IsLastWith(ps, k, i) && ps[i].1 == LastValue(ps, k).value
  {
    LastValueNone(ps, k);
    LastValueSome(ps, k);
  }

  /** Each key ends up with the value of the last pair that has it; a key no
      pair has keeps its initial value or stays absent; the dict stays well formed. */
  lemma {:induction false} PutAllLookup(d: Dict, ps: seq<(string, string)>, k: string)
    requires WellFormed(d)
    ensures WellFormed(PutAll(d, ps))
    ensures LastValue(ps, k).Some? ==>
      k in PutAll(d, ps).entries && PutAll(d, ps).entries[k] == Str(LastValue(ps, k).value)
    ensures LastValue(ps, k).None? ==>
      (k in PutAll(d, ps).entries <==> k in d.entries) &&
      (k in d.entries ==> PutAll(d, ps).entries[k] == d.entries[k])
    decreases |ps|
  {
    if ps != [] {
      PutAllLookup(d, ps[..|ps| - 1], k);
    }
  }

  /** The record of a mission: every key present is "name" or the key of a pair;
      a key's value is that of its last pair; "name" keeps the title unless a
      pair has key "name", in which case the pair wins. */
  lemma RecordLookup(title: string, tables: seq<Table>, k: string)
    ensures WellFormed(BuildRecord(title, tables))
    ensures LastValue(Pairs(tables), k).Some? ==>
      k in BuildRecord(title, tables).entries &&
      BuildRecord(title, tables).entries[k] == Str(LastValue(Pairs(tables), k).value)
    ensures LastValue(Pairs(tables), k).None? ==>
      (k in BuildRecord(title, tables).entries <==> k == NameKey) &&
      (k == NameKey ==> BuildRecord(title, tables).entries[k] == Str(title))
  {
    PutAllLookup(Singleton(NameKey, Str(title)), Pairs(tables), k);
  }

  /** The record of a page with a single pair. */
  lemma RecordOfOnePair(title: string, tables: seq<Table>, p: (string, string))
    requires Pairs(tables) == [p]
    ensures BuildRecord(title, tables) == Put(Singleton(NameKey, Str(title)), p.0, Str(p.1))
  {
    var none: seq<(string, string)> := [];
    assert [p][..0] == none;
    assert PutAll(Singleton(NameKey, Str(title)), none) == Singleton(NameKey, Str(title));
  }

  /** A row labelled "Name" gives the pair ("name", collapsed value). */
  lemma NameRowPair(v: string)
    requires !AllWhitespace(v)
    ensures Pairs([[["Name", v]]]) == [(NameKey, Collapse(v))]
  {
    NormalizeKeyOfName();
    CollapseShape(v);
    var row: Row := ["Name", v];
    assert RowFact(row) == Some((NameKey, Collapse(v)));
    FlatFilterMapSingle(row, RowFact);
  }

  /** A label that normalises to "name" overwrites the title, and the record is
      still appended although it holds nothing but "name". */
  lemma NameRowReplacesTitle(title: string, v: string)
    requires !AllWhitespace(v)
    ensures Pairs([[["Name", v]]]) != []
    ensures BuildRecord(title, [[["Name", v]]]).keys == [NameKey]
    ensures BuildRecord(title, [[["Name", v]]]).entries == map[NameKey := Str(Collapse(v))]
  {
    NameRowPair(v);
    RecordOfOnePair(title, [[["Name", v]]], (NameKey, Collapse(v)));
    PutOverSingleton(NameKey, Str(title), Str(Collapse(v)));
  }

  lemma PutOverSingleton(k: string, v: Value, w: Value)
    ensures Put(Singleton(k, v), k, w) == Dict([k], map[k := w])
  {
    assert map[k := v][k := w] == map[k := w];
  }

  lemma NormalizeKeyOfName()
    ensures NormalizeKey("Name") == "name"
  {
    assert Lower("Name") == "name";
    NormalizeKeyOfAlnum("Name");
  }

  // ---------------------------------------------------------------------
  // The walk over the anchors (scrape.py:29-71)
  // ---------------------------------------------------------------------

  /** " ".join(craft.text.split()).strip() */
  function Title(a: Anchor): string {
    Collapse(a.text)
  }

  /** What the loop body works with for one anchor: its title, the URL it
      would fetch, and the record the fetch would give (None when the fetch
      fails or found_info stays False). */
  datatype Visit = Visit(title: string, url: string, record: Option<Dict>)

  function VisitOf(base: string, a: Anchor, page: Option<Page>): (v: Visit) {
    var title := Title(a);
    Visit(title, ResolveLink(base, a.href),
      if page.Some? && Pairs(page.value) != [] then Some(BuildRecord(title, page.value)) else None)
  }

  function Visits(base: string, anchors: seq<Anchor>, pages: seq<Option<Page>>): (vs: seq<Visit>)
    requires |pages| == |anchors|
  {
    seq(|anchors|, j requires 0 <= j < |anchors| => VisitOf(base, anchors[j], pages[j]))
  }

  /** The loop state after some anchors: new_data, seen_names, the URLs
      requested; and, for the proofs, the index of the anchor each record and
      each request came from. */
  datatype WalkState = WalkState(
    records: seq<Dict>,
    seen: set<string>,
    requested: seq<string>,
    sources: seq<nat>,
    attempts: seq<nat>)

  /** The loop state before the first anchor. */
  ghost function Start(): WalkState {
    WalkState([], {}, [], [], [])
  }

  /** One iteration of the loop, for the anchor at index i: an empty or seen
      title is skipped; otherwise its URL is requested, and a record, if the
      fetch gives one, is appended and its title marked seen. */
  ghost function Step(st: WalkState, i: nat, v: Visit): WalkState {
    if v.title == [] || v.title in st.seen then st
    else
      var st1 := st.(requested := st.requested + [v.url], attempts := st.attempts + [i]);
      if v.record.Some? then
        st1.(records := st.records + [v.record.value],
             seen := st.seen + {v.title},
             sources := st.sources + [i])
      else st1
  }

  /** The loop state after all the given anchors. */
  ghost function Walk(vs: seq<Visit>): WalkState
    decreases |vs|
  {
    if vs == [] then Start()
    else Step(Walk(vs[..|vs| - 1]), |vs| - 1, vs[|vs| - 1])
  }

  lemma WalkSnoc(vs: seq<Visit>, m: nat)
    requires m < |vs|
    ensures Walk(vs[..m + 1]) == Step(Walk(vs[..m]), m, vs[m])
  {
    assert vs[..m + 1][..m] == vs[..m];
  }

  /** Anchor j has a non-empty title and its fetch gives a record. */
  predicate Succeeds(vs: seq<Visit>, j: nat)
    requires j < |vs|
  {
    vs[j].title != [] && vs[j].record.Some?
  }

  /** Some anchor before index n with title t succeeded. */
  ghost predicate Claimed(vs: seq<Visit>, t: string, n: nat)
    requires n <= |vs|
  {
    exists i :: 0 <= i < n && Succeeds(vs, i) && vs[i].title == t
  }

  /** Anchor j is fetched: its title is non-empty and no earlier anchor with that title succeeded. */
  ghost predicate Attempted(vs: seq<Visit>, j: nat)
    requires j < |vs|
  {
    vs[j].title != [] && !Claimed(vs, vs[j].title, j)
  }

  /** Anchor j gives a record: it is fetched and it succeeds. */
  ghost predicate Appended(vs: seq<Visit>, j: nat)
    requires j < |vs|
  {
    Attempted(vs, j) && vs[j].record.Some?
  }

  /** seen_names after n anchors holds exactly the titles of the anchors
      before n that succeeded. */
  lemma {:induction false} WalkSeen(vs: seq<Visit>, n: nat)
    requires n <= |vs|
    ensures forall t :: t in Walk(vs[..n]).seen <==> Claimed(vs, t, n)
    decreases n
  {
    if n == 0 {
      assert vs[..0] == [];
    } else {
      var m := n - 1;
      WalkSeen(vs, m);
      WalkSnoc(vs, m);
      var w := Walk(vs[..n]);
      forall t ensures t in w.seen <==> Claimed(vs, t, n) {
        if Claimed(vs, t, n) && !Claimed(vs, t, m) {
          var i :| 0 <= i < n && Succeeds(vs, i) && vs[i].title == t;
          assert i == m;
        }
        if Claimed(vs, t, m) {
          var i :| 0 <= i < m && Succeeds(vs, i) && vs[i].title == t;
          assert Claimed(vs, t, n);
        }
        if t == vs[m].title && Succeeds(vs, m) {
          assert Claimed(vs, t, n);
        }
      }
    }
  }

  /** Record k was built by anchor sources[k] < n; the anchors that append
      are exactly those before n that are fetched and succeed, in anchor order. */
  ghost predicate RecordsFrom(vs: seq<Visit>, n: nat, w: WalkState)
    requires n <= |vs|
  {
    && |w.records| == |w.sources|
    && (forall k :: 0 <= k < |w.sources| ==>
          && w.sources[k] < n
          && Appended(vs, w.sources[k])
          && w.records[k] == vs[w.sources[k]].record.value)
    && (forall k, l :: 0 <= k < l < |w.sources| ==> w.sources[k] < w.sources[l])
    && (forall j :: 0 <= j < n && Appended(vs, j) ==> j in w.sources)
  }

  /** Request k is the URL of anchor attempts[k] < n; the anchors fetched are
      exactly those before n with a non-empty title that no earlier success
      claimed, in anchor order. */
  ghost predicate RequestsFrom(vs: seq<Visit>, n: nat, w: WalkState)
    requires n <= |vs|
  {
    && |w.requested| == |w.attempts|
    && (forall k :: 0 <= k < |w.attempts| ==>
          && w.attempts[k] < n
          && Attempted(vs, w.attempts[k])
          && w.requested[k] == vs[w.attempts[k]].url)
    && (forall k, l :: 0 <= k < l < |w.attempts| ==> w.attempts[k] < w.attempts[l])
    && (forall j :: 0 <= j < n && Attempted(vs, j) ==> j in w.attempts)
  }

  lemma RecordsStep(vs: seq<Visit>, m: nat, w0: WalkState)
    requires m < |vs|
    requires RecordsFrom(vs, m, w0)
    requires vs[m].title in w0.seen <==> Claimed(vs, vs[m].title, m)
    ensures RecordsFrom(vs, m + 1, Step(w0, m, vs[m]))
  {
    var w := Step(w0, m, vs[m]);
    if Appended(vs, m) {
      assert w.sources == w0.sources + [m] && w.records == w0.records + [vs[m].record.value];
      assert w.sources[|w0.sources|] == m;
    } else {
      assert w.sources == w0.sources && w.records == w0.records;
    }
  }

  lemma RequestsStep(vs: seq<Visit>, m: nat, w0: WalkState)
    requires m < |vs|
    requires RequestsFrom(vs, m, w0)
    requires vs[m].title in w0.seen <==> Claimed(vs, vs[m].title, m)
    ensures RequestsFrom(vs, m + 1, Step(w0, m, vs[m]))
  {
    var w := Step(w0, m, vs[m]);
    if Attempted(vs, m) {
      assert w.attempts == w0.attempts + [m] && w.requested == w0.requested + [vs[m].url];
      assert w.attempts[|w0.attempts|] == m;
    } else {
      assert w.attempts == w0.attempts && w.requested == w0.requested;
    }
  }

  /** The records after n anchors are those of the anchors before n that are
      fetched and succeed, in anchor order. */
  lemma {:induction false} WalkRecords(vs: seq<Visit>, n: nat)
    requires n <= |vs|
    ensures RecordsFrom(vs, n, Walk(vs[..n]))
    decreases n
  {
    if n == 0 {
      assert vs[..0] == [];
    } else {
      var m := n - 1;
      WalkRecords(vs, m);
      WalkSeen(vs, m);
      WalkSnoc(vs, m);
      RecordsStep(vs, m, Walk(vs[..m]));
    }
  }

  /** The requests after n anchors are for the anchors before n with a
      non-empty title that no earlier success claimed, in anchor order. */
  lemma {:induction false} WalkRequests(vs: seq<Visit>, n: nat)
    requires n <= |vs|
    ensures RequestsFrom(vs, n, Walk(vs[..n]))
    decreases n
  {
    if n == 0 {
      assert vs[..0] == [];
    } else {
      var m := n - 1;
      WalkRequests(vs, m);
      WalkSeen(vs, m);
      WalkSnoc(vs, m);
      RequestsStep(vs, m, Walk(vs[..m]));
    }
  }

  /** No two records come from anchors with the same title, and no record from
      an anchor whose title is empty. */
  lemma DistinctTitles(vs: seq<Visit>)
    ensures var w := Walk(vs);
      && (forall k :: 0 <= k < |w.sources| ==> w.sources[k] < |vs| && vs[w.sources[k]].title != [])
      && (forall k, l :: 0 <= k < l < |w.sources| ==>
            vs[w.sources[k]].title != vs[w.sources[l]].title)
  {
    WalkRecords(vs, |vs|);
    assert vs[..|vs|] == vs;
    var w := Walk(vs);
    forall k, l | 0 <= k < l < |w.sources|
      ensures vs[w.sources[k]].title != vs[w.sources[l]].title
    {
      var i, j := w.sources[k], w.sources[l];
      assert i < j && Succeeds(vs, i) && Appended(vs, j);
      assert !Claimed(vs, vs[j].title, j);
    }
  }

  /** The walk of two anchors, step by step. */
  lemma WalkTwo(u: Visit, v: Visit)
    ensures Walk([u, v]) == Step(Step(Start(), 0, u), 1, v)
  {
    var one := [u];
    var none: seq<Visit> := [];
    assert one[..0] == none;
    assert Walk(one) == Step(Start(), 0, u);
    var vs := [u, v];
    assert vs[..1] == one;
  }

  /** A title whose first fetch fails can be retried: the second anchor with
      the same title is fetched too, and its record is the one kept. */
  lemma RetryAfterFailure(u: Visit, v: Visit)
    requires u.title != [] && v.title == u.title
    requires u.record.None? && v.record.Some?
    ensures Walk([u, v]).records == [v.record.value]
    ensures Walk([u, v]).requested == [u.url, v.url]
  {
    WalkTwo(u, v);
  }

  /** Once a title has given a record, a later anchor with the same title is
      neither fetched nor recorded, whatever its fetch would give. */
  lemma DuplicateSkipped(u: Visit, v: Visit)
    requires u.title != [] && v.title == u.title
    requires u.record.Some?
    ensures Walk([u, v]).records == [u.record.value]
    ensures Walk([u, v]).requested == [u.url]
  {
    WalkTwo(u, v);
  }

  // ---------------------------------------------------------------------
  // Reversal and numbering (scrape.py:74-78)
  // ---------------------------------------------------------------------

  /** The records with "id" set to position + 1. */
  function Numbered(s: seq<Dict>): seq<Dict>
    decreases |s|
  {
    if s == [] then []
    else Numbered(s[..|s| - 1]) + [Put(s[|s| - 1], IdKey, Num(|s|))]
  }

  lemma {:induction false} NumberedAt(s: seq<Dict>, i: nat)
    requires i < |s|
    ensures |Numbered(s)| == |s| && Numbered(s)[i] == Put(s[i], IdKey, Num(i + 1))
    decreases |s|
  {
    if i < |s| - 1 {
      NumberedAt(s[..|s| - 1], i);
    } else if |s| > 1 {
      NumberedAt(s[..|s| - 1], 0);
    }
  }

  /** new_data.reverse(): swap from both ends towards the middle. */
  method ReverseInPlace<T>(xs: seq<T>) returns (ys: seq<T>)
    ensures ys == Reversed(xs)
  {
    ys := xs;
    var n := |ys|;
    var i := 0;
    while i < n / 2
      invariant 0 <= i <= n / 2 && |ys| == n
      invariant forall k :: 0 <= k < i ==> ys[k] == xs[n - 1 - k] && ys[n - 1 - k] == xs[k]
      invariant forall k :: i <= k < n - i ==> ys[k] == xs[k]
    {
      ys := ys[i := ys[n - 1 - i]][n - 1 - i := ys[i]];
      i := i + 1;
    }
    if n > 0 { ReversedAt(xs, 0); }
    forall k | 0 <= k < n ensures ys[k] == Reversed(xs)[k] {
      ReversedAt(xs, k);
    }
  }

  /** for i, item in enumerate(new_data): item["id"] = i + 1 */
  method AssignIds(xs: seq<Dict>) returns (ys: seq<Dict>)
    ensures ys == Numbered(xs)
  {
    ys := xs;
    var i := 0;
    while i < |ys|
      invariant 0 <= i <= |ys| == |xs|
      invariant forall k :: 0 <= k < i ==> ys[k] == Put(xs[k], IdKey, Num(k + 1))
      invariant forall k :: i <= k < |ys| ==> ys[k] == xs[k]
    {
      ys := ys[i := Put(ys[i], IdKey, Num(i + 1))];
      i := i + 1;
    }
    if |xs| > 0 { NumberedAt(xs, 0); }
    forall k | 0 <= k < |xs| ensures ys[k] == Numbered(xs)[k] {
      NumberedAt(xs, k);
    }
  }

  /** After reversal and numbering, output[i] is the (N-1-i)-th appended record
      with "id" set to i + 1. */
  lemma OutputOrder(records: seq<Dict>)
    ensures |Numbered(Reversed(records))| == |records|
    ensures forall i :: 0 <= i < |records| ==>
      Numbered(Reversed(records))[i] == Put(records[|records| - 1 - i], IdKey, Num(i + 1))
    ensures forall i :: 0 <= i < |records| ==>
      IdKey in Numbered(Reversed(records))[i].entries &&
      Numbered(Reversed(records))[i].entries[IdKey] == Num(i + 1)
  {
    var out := Numbered(Reversed(records));
    if records != [] {
      ReversedAt(records, 0);
      NumberedAt(Reversed(records), 0);
    }
    forall i | 0 <= i < |records|
      ensures out[i] == Put(records[|records| - 1 - i], IdKey, Num(i + 1))
    {
      ReversedAt(records, i);
      NumberedAt(Reversed(records), i);
    }
  }

  /** Numbering well-formed records keeps them well formed, with "id" i + 1
      at position i. */
  lemma OutputFacts(records: seq<Dict>)
    requires forall k :: 0 <= k < |records| ==> WellFormed(records[k])
    ensures |Numbered(Reversed(records))| == |records|
    ensures forall i :: 0 <= i < |records| ==>
      Numbered(Reversed(records))[i] == Put(records[|records| - 1 - i], IdKey, Num(i + 1))
    ensures forall i :: 0 <= i < |records| ==>
      WellFormed(Numbered(Reversed(records))[i]) &&
      IdKey in Numbered(Reversed(records))[i].entries &&
      Numbered(Reversed(records))[i].entries[IdKey] == Num(i + 1)
  {
    OutputOrder(records);
  }

  /** Records whose "id" is their position + 1 carry exactly the ids 1..N. */
  lemma IdsOneToN(out: seq<Dict>)
    requires forall i :: 0 <= i < |out| ==> IdKey in out[i].entries && out[i].entries[IdKey] == Num(i + 1)
    ensures (set i | 0 <= i < |out| && IdKey in out[i].entries :: out[i].entries[IdKey]) ==
      (set n | 1 <= n <= |out| :: Num(n))
  {
    var ids := set i | 0 <= i < |out| && IdKey in out[i].entries :: out[i].entries[IdKey];
    forall n | 1 <= n <= |out| ensures Num(n) in ids {
      assert out[n - 1].entries[IdKey] == Num(n);
    }
  }

  /** The ids written are exactly 1..N, one per record. */
  lemma OutputIds(records: seq<Dict>)
    ensures var out := Numbered(Reversed(records));
      (set i | 0 <= i < |out| && IdKey in out[i].entries :: out[i].entries[IdKey]) ==
        (set n | 1 <= n <= |records| :: Num(n))
  {
    OutputOrder(records);
    IdsOneToN(Numbered(Reversed(records)));
  }

  /** Every record the walk collects, and so every record written, is a well
      formed dict: its keys are distinct and are exactly the keys it maps. */
  lemma ScrapedRecordsWellFormed(anchors: seq<Anchor>, pages: seq<Option<Page>>)
    requires |pages| == |anchors|
    ensures var w := Walk(Visits(BaseUrl, anchors, pages));
      forall k :: 0 <= k < |w.records| ==> WellFormed(w.records[k])
    ensures var out := Numbered(Reversed(Walk(Visits(BaseUrl, anchors, pages)).records));
      forall i :: 0 <= i < |out| ==> WellFormed(out[i])
  {
    var vs := Visits(BaseUrl, anchors, pages);
    WalkRecords(vs, |vs|);
    assert vs[..|vs|] == vs;
    var w := Walk(vs);
    forall k | 0 <= k < |w.records| ensures WellFormed(w.records[k]) {
      var j := w.sources[k];
      assert vs[j] == VisitOf(BaseUrl, anchors[j], pages[j]);
      RecordLookup(Title(anchors[j]), pages[j].value, NameKey);
    }
    OutputFacts(w.records);
  }

  // ---------------------------------------------------------------------
  // The whole run (scrape.py:14-87)
  // ---------------------------------------------------------------------

  /** The try block of scrape.py:43-68 for a title: the record appended when
      the fetch succeeds and found_info is set, None otherwise. */
  method FetchRecord(title: string, page: Option<Page>) returns (record: Option<Dict>)
    ensures record.Some? <==> page.Some? && Pairs(page.value) != []
    ensures record.Some? ==> record.value == BuildRecord(title, page.value)
  {
    match page
    case None =>
      record := None;
    case Some(tables) =>
      var dt, foundInfo := ExtractRecord(title, tables);
      record := if foundInfo then Some(dt) else None;
  }

  /** One pass of the loop body (scrape.py:33-71) for the anchor at index i,
      whose fetch gives page: new_data, seen_names and the request log move
      as one step of the walk. */
  method ScrapeAnchor(craft: Anchor, page: Option<Page>, ghost i: nat, ghost st: WalkState,
                      newData: seq<Dict>, seenNames: set<string>, log: seq<string>)
    returns (newData1: seq<Dict>, seenNames1: set<string>, log1: seq<string>)
    requires newData == st.records && seenNames == st.seen && log == st.requested
    ensures var st1 := Step(st, i, VisitOf(BaseUrl, craft, page));
      newData1 == st1.records && seenNames1 == st1.seen && log1 == st1.requested
  {
    newData1, seenNames1, log1 := newData, seenNames, log;
    var title := Title(craft);
    if !(title != [] && title !in seenNames) {
      return;
    }
    var url := ResolveLink(BaseUrl, craft.href);
    log1 := log + [url];
    var record := FetchRecord(title, page);
    if record.Some? {
      newData1 := newData + [record.value];
      seenNames1 := seenNames + {title};
    }
  }

  /** scrape(): returns the list json.dump would write (None when the listing
      fetch failed and nothing is written) and the URLs requested, in order. */
  method Scrape(listing: Option<seq<Anchor>>, pages: seq<Option<Page>>)
    returns (written: Option<seq<Dict>>, requested: seq<string>)
    requires listing.Some? ==> |pages| == |listing.value|
    ensures listing.None? ==> written == None && requested == [ListUrl]
    ensures listing.Some? ==>
      var w := Walk(Visits(BaseUrl, listing.value, pages));
      written == Some(Numbered(Reversed(w.records))) && requested == [ListUrl] + w.requested
  {
    if listing.None? {
      written, requested := None, [ListUrl];
      return;
    }
    var craftLinks := listing.value;
    ghost var vs := Visits(BaseUrl, craftLinks, pages);
    ghost var st := Start();
    var newData: seq<Dict> := [];
    var seenNames: set<string> := {};
    var log: seq<string> := [];
    var i := 0;
    assert vs[..0] == [];
    while i < |craftLinks|
      invariant 0 <= i <= |craftLinks|
      invariant st == Walk(vs[..i])
      invariant newData == st.records && seenNames == st.seen && log == st.requested
    {
      WalkSnoc(vs, i);
      newData, seenNames, log := ScrapeAnchor(craftLinks[i], pages[i], i, st, newData, seenNames, log);
      st := Step(st, i, vs[i]);
      i := i + 1;
    }
    assert vs[..i] == vs;
    newData := ReverseInPlace(newData);
    newData := AssignIds(newData);
    written, requested := Some(newData), [ListUrl] + log;
  }
}
