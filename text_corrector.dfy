/** app/utils/validators.py, second half: the TextCorrector class. It builds reverse
    indexes from normalized actor, director and company names to row positions and
    from normalized titles to the original titles, and corrects user input against
    them by thresholded best match. */
module Corrector {
  import opened Wrappers
  import opened Text
  import opened PyList
  import opened Validators
  import opened DataLoader

  // ---------------------------------------------------------------------------
  // The fuzzy matcher

  /** A similarity score as rapidfuzz returns it: a float from 0 to 100. */
  type Percent = s: real | 0.0 <= s <= 100.0

  /** fuzz.token_sort_ratio, taken as an arbitrary scoring function into 0..100. */
  type Scorer = (string, string) -> Percent

  /** choices[p] scores highest against query, and no earlier choice scores as high. */
  predicate FirstBest(query: string, choices: seq<string>, p: nat, scorer: Scorer) {
    && p < |choices|
    && (forall j :: 0 <= j < |choices| ==> scorer(query, choices[j]) <= scorer(query, choices[p]))
    && (forall j :: 0 <= j < p ==> scorer(query, choices[j]) < scorer(query, choices[p]))
  }

  /** At most one position is the first best. */
  lemma FirstBestUnique(query: string, choices: seq<string>, p: nat, q: nat, scorer: Scorer)
    requires FirstBest(query, choices, p, scorer) && FirstBest(query, choices, q, scorer)
    ensures p == q
  {
    assert scorer(query, choices[p]) == scorer(query, choices[q]);
  }

  /** Left-to-right scan that only replaces the current best on a strictly higher score. */
  function BestIndex(query: string, choices: seq<string>, scorer: Scorer): (p: nat)
    requires |choices| > 0
    ensures FirstBest(query, choices, p, scorer)
  {
    if |choices| == 1 then 0
    else
      var n := |choices| - 1;
      var k := BestIndex(query, choices[..n], scorer);
      assert forall j :: 0 <= j < n ==> choices[..n][j] == choices[j];
      if scorer(query, choices[n]) > scorer(query, choices[k]) then n else k
  }

  /** The (choice, score, index) triple process.extractOne returns. */
  datatype Match = Match(choice: string, score: Percent, index: nat)

  /** process.extractOne(query, choices, scorer=...): the first best-scoring choice,
      or None when there are no choices. */
  function ExtractOne(query: string, choices: seq<string>, scorer: Scorer): (r: Option<Match>)
    ensures r.None? <==> choices == []
    ensures r.Some? ==> && FirstBest(query, choices, r.value.index, scorer)
                        && r.value.choice == choices[r.value.index]
                        && r.value.score == scorer(query, r.value.choice)
  {
    if choices == [] then None
    else
      var p := BestIndex(query, choices, scorer);
      Some(Match(choices[p], scorer(query, choices[p]), p))
  }

  // ---------------------------------------------------------------------------
  // The entity indexes

  datatype Entity = Actor | Director | Company

  /** The names a row gives for an entity kind: its cast, its director, its companies. */
  function NamesOf(m: Movie, e: Entity): seq<string> {
    match e
    case Actor => m.cast
    case Director => [m.director]
    case Company => m.productionCompanies
  }

  /** The indexes below are stated for any key function norm; the class builds them
      with Normalize. */
  function MapAll(names: seq<string>, norm: string -> string): (r: seq<string>)
    ensures |r| == |names|
    ensures forall j :: 0 <= j < |names| ==> r[j] == norm(names[j])
  {
    seq(|names|, j requires 0 <= j < |names| => norm(names[j]))
  }

  /** The (key, row) pairs one row contributes, in list order. */
  function Tag(names: seq<string>, row: int, norm: string -> string): (r: seq<(string, int)>)
    ensures |r| == |names|
    ensures forall j :: 0 <= j < |names| ==> r[j] == (norm(names[j]), row)
  {
    seq(|names|, j requires 0 <= j < |names| => (norm(names[j]), row))
  }

  /** Every (key, row) pair, in the order the nested loops visit them. */
  function Mentions(rows: seq<Movie>, e: Entity, norm: string -> string): seq<(string, int)> {
    if rows == [] then []
    else Mentions(rows[..|rows| - 1], e, norm) + Tag(NamesOf(rows[|rows| - 1], e), |rows| - 1, norm)
  }

  /** A defaultdict(set) together with the insertion order of its keys. */
  datatype SetIndex = SetIndex(keys: seq<string>, members: map<string, set<int>>)

  /** index[key].add(row) on a defaultdict(set). */
  function AddMember(ix: SetIndex, key: string, row: int): SetIndex {
    var m := if key in ix.members then ix.members else ix.members[key := {}];
    SetIndex(if key in ix.members then ix.keys else ix.keys + [key], m[key := m[key] + {row}])
  }

  /** The index that adding every pair of st, in order, produces. */
  function IndexOf(st: seq<(string, int)>): SetIndex {
    if st == [] then SetIndex([], map[])
    else var ix := IndexOf(st[..|st| - 1]); AddMember(ix, st[|st| - 1].0, st[|st| - 1].1)
  }

  /** actor_index, director_index or company_index with its key order. */
  function NameIndex(rows: seq<Movie>, e: Entity, norm: string -> string): SetIndex {
    IndexOf(Mentions(rows, e, norm))
  }

  /** The rows a sequence of pairs files under key k. */
  function RowsOf(st: seq<(string, int)>, k: string): set<int> {
    set p | p in st && p.0 == k :: p.1
  }

  /** The rows with a name of kind e whose key is k. */
  function RowsNaming(rows: seq<Movie>, e: Entity, k: string, norm: string -> string): set<int> {
    set i | 0 <= i < |rows| && k in MapAll(NamesOf(rows[i], e), norm)
  }

  lemma {:induction false} IndexOfMembers(st: seq<(string, int)>, k: string)
    ensures k in IndexOf(st).members <==> k in Firsts(st)
    ensures k in IndexOf(st).members ==> IndexOf(st).members[k] == RowsOf(st, k)
  {
    if st != [] {
      var n := |st| - 1;
      var pre := st[..n];
      IndexOfMembers(pre, k);
      assert st == pre + [st[n]];
      assert Firsts(st) == Firsts(pre) + [st[n].0];
      assert RowsOf(st, k) == RowsOf(pre, k) + (if st[n].0 == k then {st[n].1} else {});
    }
  }

  lemma {:induction false} MentionsMeaning(rows: seq<Movie>, e: Entity, norm: string -> string, k: string, i: int)
    ensures (k, i) in Mentions(rows, e, norm) <==> 0 <= i < |rows| && k in MapAll(NamesOf(rows[i], e), norm)
  {
    if rows != [] {
      var n := |rows| - 1;
      MentionsMeaning(rows[..n], e, norm, k, i);
      var t := Tag(NamesOf(rows[n], e), n, norm);
      assert (k, i) in t <==> i == n && k in MapAll(NamesOf(rows[n], e), norm);
      if 0 <= i < n { assert rows[..n][i] == rows[i]; }
    }
  }

  lemma RowsOfMentions(rows: seq<Movie>, e: Entity, norm: string -> string, k: string)
    ensures RowsOf(Mentions(rows, e, norm), k) == RowsNaming(rows, e, k, norm)
  {
    var st := Mentions(rows, e, norm);
    forall i | i in RowsOf(st, k) ensures i in RowsNaming(rows, e, k, norm) {
      var p :| p in st && p.0 == k && p.1 == i;
      assert p == (k, i);
      MentionsMeaning(rows, e, norm, k, i);
    }
    forall i | i in RowsNaming(rows, e, k, norm) ensures i in RowsOf(st, k) {
      MentionsMeaning(rows, e, norm, k, i);
      assert (k, i) in st;
    }
  }

  /** Soundness and completeness of an entity index: k is a key exactly when some row
      names it, and its set is exactly the rows that name it. */
  lemma NameIndexExact(rows: seq<Movie>, e: Entity, norm: string -> string, k: string)
    ensures k in NameIndex(rows, e, norm).members <==> RowsNaming(rows, e, k, norm) != {}
    ensures k in NameIndex(rows, e, norm).members ==> NameIndex(rows, e, norm).members[k] == RowsNaming(rows, e, k, norm)
  {
    var st := Mentions(rows, e, norm);
    IndexOfMembers(st, k);
    RowsOfMentions(rows, e, norm, k);
    if RowsNaming(rows, e, k, norm) != {} {
      var i :| i in RowsOf(st, k);
      var p :| p in st && p.0 == k && p.1 == i;
      var j :| 0 <= j < |st| && st[j] == p;
      assert Firsts(st)[j] == k;
    }
    forall j | 0 <= j < |st| && st[j].0 == k ensures st[j].1 in RowsOf(st, k) {
      assert st[j] in st;
    }
  }

  /** Every row is filed under the key of each of its names. */
  lemma NameIndexComplete(rows: seq<Movie>, e: Entity, norm: string -> string, i: nat, name: string)
    requires i < |rows| && name in NamesOf(rows[i], e)
    ensures var ix := NameIndex(rows, e, norm).members;
      norm(name) in ix && i in ix[norm(name)]
  {
    var names := NamesOf(rows[i], e);
    var j :| 0 <= j < |names| && names[j] == name;
    assert MapAll(names, norm)[j] == norm(name);
    assert i in RowsNaming(rows, e, norm(name), norm);
    NameIndexExact(rows, e, norm, norm(name));
  }

  /** The key order is the order of first reference, each key once. */
  lemma {:induction false} IndexOfKeys(st: seq<(string, int)>)
    ensures IndexOf(st).keys == Dedup(Firsts(st))
  {
    if st != [] {
      var n := |st| - 1;
      var pre := st[..n];
      IndexOfKeys(pre);
      IndexOfMembers(pre, st[n].0);
      assert Firsts(st)[..n] == Firsts(pre);
      DedupSnoc(Firsts(st));
    }
  }

  lemma DedupSnoc(s: seq<string>)
    requires s != []
    ensures Dedup(s) == Dedup(s[..|s| - 1]) + (if s[|s| - 1] in s[..|s| - 1] then [] else [s[|s| - 1]])
  {
  }

  /** The key list is the distinct keys in order of first reference, and its members
      are exactly the keys of the map. */
  lemma NameIndexKeys(rows: seq<Movie>, e: Entity, norm: string -> string)
    ensures NameIndex(rows, e, norm).keys == Dedup(Firsts(Mentions(rows, e, norm)))
    ensures forall k :: k in NameIndex(rows, e, norm).keys <==> k in NameIndex(rows, e, norm).members
  {
    var st := Mentions(rows, e, norm);
    var ix := NameIndex(rows, e, norm);
    IndexOfKeys(st);
    forall k ensures k in ix.keys <==> k in ix.members {
      IndexOfMembers(st, k);
    }
  }

  /** Every key is the key of some name in the frame. */
  lemma NameIndexKeysFromNames(rows: seq<Movie>, e: Entity, norm: string -> string, k: string)
    requires k in NameIndex(rows, e, norm).keys
    ensures exists i, name :: 0 <= i < |rows| && name in NamesOf(rows[i], e) && k == norm(name)
  {
    var st := Mentions(rows, e, norm);
    IndexOfKeys(st);
    var j :| 0 <= j < |Firsts(st)| && Firsts(st)[j] == k;
    var i := st[j].1;
    assert st[j] in st;
    MentionsMeaning(rows, e, norm, k, i);
    var names := NamesOf(rows[i], e);
    var m :| 0 <= m < |names| && MapAll(names, norm)[m] == k;
    assert names[m] in NamesOf(rows[i], e);
  }

  /** Built with normalize_text, every key has the normalized shape. */
  lemma NameIndexCanonical(rows: seq<Movie>, e: Entity)
    ensures forall k :: k in NameIndex(rows, e, Normalize).keys ==> Canonical(k)
  {
    forall k | k in NameIndex(rows, e, Normalize).keys ensures Canonical(k) {
      NameIndexKeysFromNames(rows, e, Normalize, k);
      var i, name :| 0 <= i < |rows| && name in NamesOf(rows[i], e) && k == Normalize(name);
      NormalizeCanonical(name);
    }
  }

  /** Every row an index holds is a position of the frame it was built from. */
  lemma NameIndexInRange(rows: seq<Movie>, e: Entity, norm: string -> string)
    ensures forall k, i :: k in NameIndex(rows, e, norm).members && i in NameIndex(rows, e, norm).members[k] ==> 0 <= i < |rows|
  {
    forall k | k in NameIndex(rows, e, norm).members {
      NameIndexExact(rows, e, norm, k);
    }
  }

  // ---------------------------------------------------------------------------
  // The title index

  function Titles(rows: seq<Movie>): (r: seq<string>)
    ensures |r| == |rows|
    ensures forall i :: 0 <= i < |rows| ==> r[i] == rows[i].title
  {
    seq(|rows|, i requires 0 <= i < |rows| => rows[i].title)
  }

  /** Each title paired with its key, in frame order. */
  function Keyed(titles: seq<string>, norm: string -> string): (r: seq<(string, string)>)
    ensures |r| == |titles|
    ensures forall i :: 0 <= i < |titles| ==> r[i] == (norm(titles[i]), titles[i])
  {
    seq(|titles|, i requires 0 <= i < |titles| => (norm(titles[i]), titles[i]))
  }

  /** norm_to_titles with its key order. */
  datatype ListIndex = ListIndex(keys: seq<string>, lists: map<string, seq<string>>)

  /** norm_to_titles.setdefault(key, []).append(title). */
  function AppendTitle(ix: ListIndex, key: string, title: string): ListIndex {
    var m := if key in ix.lists then ix.lists else ix.lists[key := []];
    ListIndex(if key in ix.lists then ix.keys else ix.keys + [key], m[key := m[key] + [title]])
  }

  /** The index that appending every (key, title) pair, in order, produces. */
  function TitleIndex(pairs: seq<(string, string)>): ListIndex {
    if pairs == [] then ListIndex([], map[])
    else AppendTitle(TitleIndex(pairs[..|pairs| - 1]), pairs[|pairs| - 1].0, pairs[|pairs| - 1].1)
  }

  /** The titles filed under k, in frame order. */
  function WithKey(pairs: seq<(string, string)>, k: string): (r: seq<string>)
    ensures |r| <= |pairs|
  {
    if pairs == [] then []
    else
      var n := |pairs| - 1;
      WithKey(pairs[..n], k) + (if pairs[n].0 == k then [pairs[n].1] else [])
  }

  /** Every title listed under k came with key k. */
  lemma {:induction false} WithKeySound(pairs: seq<(string, string)>, k: string)
    ensures forall j :: 0 <= j < |WithKey(pairs, k)| ==> (k, WithKey(pairs, k)[j]) in pairs
  {
    if pairs != [] {
      var n := |pairs| - 1;
      WithKeySound(pairs[..n], k);
      var pre := WithKey(pairs[..n], k);
      forall j | 0 <= j < |pre| ensures (k, pre[j]) in pairs {
        assert (k, pre[j]) in pairs[..n];
      }
    }
  }

  /** The list under k is empty exactly when no pair carries key k. */
  lemma {:induction false} WithKeyEmpty(pairs: seq<(string, string)>, k: string)
    ensures WithKey(pairs, k) == [] <==> k !in Firsts(pairs)
  {
    if pairs != [] {
      var n := |pairs| - 1;
      WithKeyEmpty(pairs[..n], k);
      assert Firsts(pairs) == Firsts(pairs[..n]) + [pairs[n].0];
      if pairs[n].0 == k {
        assert Firsts(pairs)[n] == k;
        assert WithKey(pairs, k)[|WithKey(pairs, k)| - 1] == pairs[n].1;
      } else {
        assert WithKey(pairs, k) == WithKey(pairs[..n], k);
      }
    }
  }

  /** Every pair's title is listed under its key. */
  lemma {:induction false} WithKeyComplete(pairs: seq<(string, string)>, i: nat)
    requires i < |pairs|
    ensures pairs[i].1 in WithKey(pairs, pairs[i].0)
  {
    var n := |pairs| - 1;
    if i < n {
      WithKeyComplete(pairs[..n], i);
      assert pairs[..n][i] == pairs[i];
    }
  }

  /** Each key lists exactly the titles filed under it, in frame order, so a title
      appears once per row that carries it. */
  lemma {:induction false} TitleIndexExact(pairs: seq<(string, string)>, k: string)
    ensures k in TitleIndex(pairs).lists <==> k in Firsts(pairs)
    ensures k in TitleIndex(pairs).lists ==> TitleIndex(pairs).lists[k] == WithKey(pairs, k)
    ensures k in TitleIndex(pairs).keys <==> k in TitleIndex(pairs).lists
  {
    if pairs != [] {
      var n := |pairs| - 1;
      var pre := pairs[..n];
      TitleIndexExact(pre, k);
      assert Firsts(pairs) == Firsts(pre) + [pairs[n].0];
      if pairs[n].0 == k {
        assert Firsts(pairs)[n] == k;
        WithKeyEmpty(pre, k);
        assert TitleIndex(pairs).lists[k] == (if k in TitleIndex(pre).lists then TitleIndex(pre).lists[k] else []) + [pairs[n].1];
      } else {
        assert TitleIndex(pairs).lists == TitleIndex(pre).lists[pairs[n].0 := TitleIndex(pairs).lists[pairs[n].0]];
        assert WithKey(pairs, k) == WithKey(pre, k);
      }
    }
  }

  /** The keys are the distinct normalized titles in order of first appearance. */
  lemma {:induction false} TitleIndexKeys(pairs: seq<(string, string)>)
    ensures TitleIndex(pairs).keys == Dedup(Firsts(pairs))
  {
    if pairs != [] {
      var n := |pairs| - 1;
      TitleIndexKeys(pairs[..n]);
      TitleIndexExact(pairs[..n], pairs[n].0);
      assert Firsts(pairs)[..n] == Firsts(pairs[..n]);
      DedupSnoc(Firsts(pairs));
    }
  }

  lemma IndexOfSnoc(st: seq<(string, int)>, key: string, row: int)
    ensures IndexOf(st + [(key, row)]) == AddMember(IndexOf(st), key, row)
  {
    assert (st + [(key, row)])[..|st|] == st;
  }

  lemma TagSnoc(done: seq<(string, int)>, names: seq<string>, j: int, row: int, norm: string -> string)
    requires 0 <= j < |names|
    ensures done + Tag(names[..j + 1], row, norm) == (done + Tag(names[..j], row, norm)) + [(norm(names[j]), row)]
  {
    var a, b := Tag(names[..j], row, norm), Tag(names[..j + 1], row, norm);
    assert b == a + [(norm(names[j]), row)];
  }

  /** index[key].add(row) on a defaultdict(set) kept as its key order and its map. */
  method AddTo(keys: seq<string>, members: map<string, set<int>>, key: string, row: int)
    returns (keys': seq<string>, members': map<string, set<int>>)
    ensures SetIndex(keys', members') == AddMember(SetIndex(keys, members), key, row)
  {
    keys', members' := keys, members;
    if key !in members' {
      keys' := keys' + [key];
      members' := members'[key := {}];
    }
    members' := members'[key := members'[key] + {row}];
  }

  /** The inner loop of _build_indexes over one row's cast or companies: each name is
      filed under its key (normalize_text in the class) with the row. */
  method FileNames(keys: seq<string>, members: map<string, set<int>>, names: seq<string>, row: int,
                   norm: string -> string, ghost done: seq<(string, int)>)
    returns (keys': seq<string>, members': map<string, set<int>>)
    requires SetIndex(keys, members) == IndexOf(done)
    ensures SetIndex(keys', members') == IndexOf(done + Tag(names, row, norm))
  {
    keys', members' := keys, members;
    assert done + Tag(names[..0], row, norm) == done;
    for j := 0 to |names|
      invariant SetIndex(keys', members') == IndexOf(done + Tag(names[..j], row, norm))
    {
      var key := norm(names[j]);
      ghost var before := done + Tag(names[..j], row, norm);
      TagSnoc(done, names, j, row, norm);
      IndexOfSnoc(before, key, row);
      keys', members' := AddTo(keys', members', key, row);
    }
    assert names[..|names|] == names;
  }

  /** The title loop of _build_indexes: every title appended, in frame order, to the
      list under its key. */
  method FileTitles(titles: seq<string>, norm: string -> string) returns (keys: seq<string>, lists: map<string, seq<string>>)
    ensures keys == TitleIndex(Keyed(titles, norm)).keys && lists == TitleIndex(Keyed(titles, norm)).lists
  {
    keys, lists := [], map[];
    for k := 0 to |titles|
      invariant keys == TitleIndex(Keyed(titles[..k], norm)).keys && lists == TitleIndex(Keyed(titles[..k], norm)).lists
    {
      var key := norm(titles[k]);
      assert Keyed(titles[..k + 1], norm) == Keyed(titles[..k], norm) + [(key, titles[k])];
      if key !in lists {
        keys := keys + [key];
        lists := lists[key := []];
      }
      lists := lists[key := lists[key] + [titles[k]]];
    }
    assert titles[..|titles|] == titles;
  }

  /** One more row adds its names, tagged with its position, after the others. */
  lemma NameIndexSnoc(pre: seq<Movie>, m: Movie, e: Entity, norm: string -> string)
    ensures NameIndex(pre + [m], e, norm) == IndexOf(Mentions(pre, e, norm) + Tag(NamesOf(m, e), |pre|, norm))
  {
    assert (pre + [m])[..|pre|] == pre;
  }

  /** actor_index, director_index and company_index together. */
  datatype Indexes = Indexes(actors: SetIndex, directors: SetIndex, companies: SetIndex)

  function AllIndexes(rows: seq<Movie>, norm: string -> string): Indexes {
    Indexes(NameIndex(rows, Actor, norm), NameIndex(rows, Director, norm), NameIndex(rows, Company, norm))
  }

  /** The body of the row loop of _build_indexes for the row at position idx: its cast,
      its director and its production companies filed under their keys. */
  method FileRow(ix: Indexes, rows: seq<Movie>, idx: int, norm: string -> string) returns (ix': Indexes)
    requires 0 <= idx < |rows| && ix == AllIndexes(rows[..idx], norm)
    ensures ix' == AllIndexes(rows[..idx + 1], norm)
  {
    ghost var pre := rows[..idx];
    var row := rows[idx];
    assert rows[..idx + 1] == pre + [row];
    NameIndexSnoc(pre, row, Actor, norm);
    var actorKeys, actors := FileNames(ix.actors.keys, ix.actors.members, NamesOf(row, Actor), idx, norm, Mentions(pre, Actor, norm));
    NameIndexSnoc(pre, row, Director, norm);
    var key := norm(row.director);
    assert Tag(NamesOf(row, Director), idx, norm) == [(key, idx)];
    IndexOfSnoc(Mentions(pre, Director, norm), key, idx);
    var directorKeys, directors := AddTo(ix.directors.keys, ix.directors.members, key, idx);
    NameIndexSnoc(pre, row, Company, norm);
    var companyKeys, companies := FileNames(ix.companies.keys, ix.companies.members, NamesOf(row, Company), idx, norm, Mentions(pre, Company, norm));
    ix' := Indexes(SetIndex(actorKeys, actors), SetIndex(directorKeys, directors), SetIndex(companyKeys, companies));
  }

  lemma AllIndexesEmpty(rows: seq<Movie>, norm: string -> string)
    ensures AllIndexes(rows[..0], norm) == Indexes(SetIndex([], map[]), SetIndex([], map[]), SetIndex([], map[]))
  {
    assert rows[..0] == [];
  }

  /** The row loop of _build_indexes over the frame. */
  method FileRows(rows: seq<Movie>, norm: string -> string) returns (ix: Indexes)
    ensures ix == AllIndexes(rows, norm)
  {
    var empty := SetIndex([], map[]);
    ix := Indexes(empty, empty, empty);
    AllIndexesEmpty(rows, norm);
    for idx := 0 to |rows|
      invariant ix == AllIndexes(rows[..idx], norm)
    {
      ix := FileRow(ix, rows, idx, norm);
    }
    assert rows[..|rows|] == rows;
  }

  // ---------------------------------------------------------------------------
  // The class

  /** What the correctors rely on: every title key has a non-empty list of titles that
      normalize to it, and every entity key is a normalized string. */
  ghost predicate TitleListsSound(keys: seq<string>, lists: map<string, seq<string>>, titles: seq<string>) {
    forall k :: k in keys ==>
      (&& k in lists && lists[k] != []
       && forall j :: 0 <= j < |lists[k]| ==> Normalize(lists[k][j]) == k && lists[k][j] in titles)
  }

  ghost predicate KeysCanonical(keys: seq<string>) {
    forall k :: k in keys ==> Canonical(k)
  }

  ghost predicate MembersBelow(members: map<string, set<int>>, n: nat) {
    forall k, i :: k in members && i in members[k] ==> 0 <= i < n
  }

  /** The indexes _build_indexes leaves for a frame, exactly. */
  ghost predicate Built(rows: seq<Movie>,
                        actorKeys: seq<string>, actors: map<string, set<int>>,
                        directorKeys: seq<string>, directors: map<string, set<int>>,
                        companyKeys: seq<string>, companies: map<string, set<int>>,
                        titleKeys: seq<string>, titles: map<string, seq<string>>) {
    && actorKeys == NameIndex(rows, Actor, Normalize).keys && actors == NameIndex(rows, Actor, Normalize).members
    && directorKeys == NameIndex(rows, Director, Normalize).keys && directors == NameIndex(rows, Director, Normalize).members
    && companyKeys == NameIndex(rows, Company, Normalize).keys && companies == NameIndex(rows, Company, Normalize).members
    && titleKeys == TitleIndex(Keyed(Titles(rows), Normalize)).keys && titles == TitleIndex(Keyed(Titles(rows), Normalize)).lists
  }

  /** The facts about those indexes that the correctors rely on. */
  ghost predicate Sound(rows: seq<Movie>,
                        actorKeys: seq<string>, actors: map<string, set<int>>,
                        directorKeys: seq<string>, directors: map<string, set<int>>,
                        companyKeys: seq<string>, companies: map<string, set<int>>,
                        titleKeys: seq<string>, titles: map<string, seq<string>>) {
    && TitleListsSound(titleKeys, titles, Titles(rows))
    && KeysCanonical(actorKeys) && KeysCanonical(directorKeys) && KeysCanonical(companyKeys)
    && MembersBelow(actors, |rows|) && MembersBelow(directors, |rows|) && MembersBelow(companies, |rows|)
  }

  /** The indexes of a frame have the facts the correctors rely on. */
  lemma BuiltSound(rows: seq<Movie>,
                   actorKeys: seq<string>, actors: map<string, set<int>>,
                   directorKeys: seq<string>, directors: map<string, set<int>>,
                   companyKeys: seq<string>, companies: map<string, set<int>>,
                   titleKeys: seq<string>, titles: map<string, seq<string>>)
    requires Built(rows, actorKeys, actors, directorKeys, directors, companyKeys, companies, titleKeys, titles)
    ensures Sound(rows, actorKeys, actors, directorKeys, directors, companyKeys, companies, titleKeys, titles)
  {
    EntityFacts(rows, Actor);
    EntityFacts(rows, Director);
    EntityFacts(rows, Company);
    TitleFacts(rows);
  }

  class TextCorrector {
    const movies: seq<Movie>
    const tokenSortRatio: Scorer
    const actorIndex: map<string, set<int>>
    const directorIndex: map<string, set<int>>
    const companyIndex: map<string, set<int>>
    const normToTitles: map<string, seq<string>>
    /** titulos_norm */
    const normalizedTitles: seq<string>
    const actorNames: seq<string>
    const directorNames: seq<string>
    const companyNames: seq<string>

    /** The indexes are exactly those of the frame. */
    ghost predicate Valid() {
      && Built(movies, actorNames, actorIndex, directorNames, directorIndex, companyNames, companyIndex,
               normalizedTitles, normToTitles)
      && Consistent()
    }

    /** The facts about the indexes that the correctors need. */
    ghost predicate Consistent() {
      Sound(movies, actorNames, actorIndex, directorNames, directorIndex, companyNames, companyIndex,
            normalizedTitles, normToTitles)
    }

    /** __init__ with _build_indexes: one pass over the rows filling the three entity
        indexes, then one pass over the titles filling norm_to_titles; the key lists
        are the dictionaries' keys in insertion order. */
    constructor (movies: seq<Movie>, tokenSortRatio: Scorer)
      ensures Valid()
      ensures this.movies == movies && this.tokenSortRatio == tokenSortRatio
    {
      var ix := FileRows(movies, Normalize);
      var ak, a, dk, d, ck, c := ix.actors.keys, ix.actors.members, ix.directors.keys, ix.directors.members,
                                 ix.companies.keys, ix.companies.members;
      var tk, t := FileTitles(Titles(movies), Normalize);
      BuiltSound(movies, ak, a, dk, d, ck, c, tk, t);
      this.movies := movies;
      this.tokenSortRatio := tokenSortRatio;
      actorNames, actorIndex, directorNames, directorIndex, companyNames, companyIndex := ak, a, dk, d, ck, c;
      normalizedTitles, normToTitles := tk, t;
    }

    /** corregir_titulo(titulo_input, threshold=70). */
    function CorrectTitle(titleInput: string, threshold: real := 70.0): (r: string)
      requires Consistent()
      ensures IsBlank(titleInput) ==> r == titleInput
      ensures r == titleInput || r in Titles(movies)
      ensures !IsBlank(titleInput) && (forall k :: k in normalizedTitles ==> tokenSortRatio(Normalize(titleInput), k) < threshold)
              ==> r == titleInput
      ensures !IsBlank(titleInput) && (exists k :: k in normalizedTitles && tokenSortRatio(Normalize(titleInput), k) >= threshold)
              ==> exists p: nat :: && FirstBest(Normalize(titleInput), normalizedTitles, p, tokenSortRatio)
                              && PickedFrom(titleInput, normToTitles[normalizedTitles[p]], r, tokenSortRatio)
    {
      if IsBlank(titleInput) then titleInput
      else ResolveTitle(titleInput, Normalize(titleInput), normalizedTitles, normToTitles, threshold, tokenSortRatio)
    }

    /** The candidate keys for an entity kind; None for a kind the source does not know. */
    function Candidates(entity: string): (r: Option<seq<string>>)
      ensures entity == "actor" ==> r == Some(actorNames)
      ensures entity == "director" ==> r == Some(directorNames)
      ensures entity == "company" ==> r == Some(companyNames)
      ensures entity != "actor" && entity != "director" && entity != "company" ==> r.None?
    {
      if entity == "actor" then Some(actorNames)
      else if entity == "director" then Some(directorNames)
      else if entity == "company" then Some(companyNames)
      else None
    }

    /** corregir_nombre_entidad(nombre, entidad, threshold=75). */
    function CorrectEntityName(name: string, entity: string, threshold: real := 75.0): (r: string)
      requires Consistent()
      ensures IsBlank(name) ==> r == name
      ensures !IsBlank(name) ==> Canonical(r)
      ensures !IsBlank(name) && Candidates(entity).None? ==> r == Normalize(name)
      ensures !IsBlank(name) && Candidates(entity).Some? ==>
                BestOrSelf(Normalize(name), Candidates(entity).value, r, threshold, tokenSortRatio)
    {
      if IsBlank(name) then name
      else
        NormalizeCanonical(name);
        match Candidates(entity)
        case None => Normalize(name)
        case Some(cands) => MatchOrKeep(Normalize(name), cands, threshold, tokenSortRatio)
    }
  }

  /** corregir_titulo after the blank check, for ni the normalized input: the first
      best key, if it reaches the threshold, and then one of the titles under it. */
  function ResolveTitle(titleInput: string, ni: string, keys: seq<string>, lists: map<string, seq<string>>,
                        threshold: real, scorer: Scorer): (r: string)
    requires forall k :: k in keys ==> k in lists && lists[k] != []
    ensures r == titleInput || exists k :: k in keys && r in lists[k]
    ensures (forall k :: k in keys ==> scorer(ni, k) < threshold) ==> r == titleInput
    ensures (exists k :: k in keys && scorer(ni, k) >= threshold) ==>
              exists p: nat :: FirstBest(ni, keys, p, scorer) && PickedFrom(titleInput, lists[keys[p]], r, scorer)
  {
    match ExtractOne(ni, keys, scorer)
    case None => titleInput
    case Some(m) =>
      if m.score >= threshold then
        var originals := lists[m.choice];
        if |originals| == 1 then originals[0]
        else
          match ExtractOne(titleInput, originals, scorer)
          case None => titleInput
          case Some(best) => best.choice
      else titleInput
  }

  /** How the tie-break picks r from a key's titles: the only title, or else the first
      title that scores best against the raw input. */
  ghost predicate PickedFrom(input: string, originals: seq<string>, r: string, scorer: Scorer) {
    && r in originals
    && (|originals| == 1 ==> r == originals[0])
    && (|originals| > 1 ==> exists q: nat :: FirstBest(input, originals, q, scorer) && r == originals[q])
  }

  /** r is query itself when no candidate reaches the threshold, and otherwise the
      first best candidate. */
  ghost predicate BestOrSelf(query: string, cands: seq<string>, r: string, threshold: real, scorer: Scorer) {
    && ((forall c :: c in cands ==> scorer(query, c) < threshold) ==> r == query)
    && ((exists c :: c in cands && scorer(query, c) >= threshold) ==>
          exists p: nat :: FirstBest(query, cands, p, scorer) && r == cands[p])
  }

  /** The thresholded extractOne step of corregir_nombre_entidad. */
  function MatchOrKeep(query: string, cands: seq<string>, threshold: real, scorer: Scorer): (r: string)
    ensures BestOrSelf(query, cands, r, threshold, scorer)
    ensures r == query || r in cands
  {
    match ExtractOne(query, cands, scorer)
    case None => query
    case Some(m) => if m.score >= threshold then m.choice else query
  }

  /** The title index of a frame lists, under each key, titles of the frame with that key. */
  lemma TitleFacts(rows: seq<Movie>)
    ensures TitleListsSound(TitleIndex(Keyed(Titles(rows), Normalize)).keys, TitleIndex(Keyed(Titles(rows), Normalize)).lists, Titles(rows))
  {
    var titles := Titles(rows);
    var pairs := Keyed(titles, Normalize);
    var ix := TitleIndex(pairs);
    forall k | k in ix.keys
      ensures k in ix.lists && ix.lists[k] != []
      ensures forall j :: 0 <= j < |ix.lists[k]| ==> Normalize(ix.lists[k][j]) == k && ix.lists[k][j] in titles
    {
      TitleIndexExact(pairs, k);
      WithKeyEmpty(pairs, k);
      WithKeySound(pairs, k);
      forall j | 0 <= j < |ix.lists[k]| ensures Normalize(ix.lists[k][j]) == k && ix.lists[k][j] in titles {
        var i :| 0 <= i < |pairs| && pairs[i] == (k, ix.lists[k][j]);
        assert titles[i] == ix.lists[k][j];
      }
    }
  }

  /** The entity keys of a frame are normalized, and the rows they hold are its positions. */
  lemma EntityFacts(rows: seq<Movie>, e: Entity)
    ensures KeysCanonical(NameIndex(rows, e, Normalize).keys)
    ensures MembersBelow(NameIndex(rows, e, Normalize).members, |rows|)
  {
    NameIndexCanonical(rows, e);
    NameIndexInRange(rows, e, Normalize);
  }

  /** Every choice that scores a perfect 100 against q comes at or after an occurrence
      of q itself. token_sort_ratio also gives 100 to other strings (a token
      permutation of q, for one), so this is what decides whether q wins. */
  ghost predicate QueryFirstPerfect(q: string, choices: seq<string>, scorer: Scorer) {
    forall i :: 0 <= i < |choices| && scorer(q, choices[i]) == 100.0 ==> exists j :: 0 <= j <= i && choices[j] == q
  }

  /** The first best choice scores 100 when some choice does, and every perfect
      choice comes at or after it. */
  lemma FirstBestPerfect(q: string, choices: seq<string>, p: nat, j: nat, scorer: Scorer)
    requires FirstBest(q, choices, p, scorer) && j < |choices| && scorer(q, choices[j]) == 100.0
    ensures scorer(q, choices[p]) == 100.0
    ensures forall i :: 0 <= i < |choices| && scorer(q, choices[i]) == 100.0 ==> p <= i
  {
  }

  /** A first best choice equal to q leaves no perfect choice before an occurrence of q. */
  lemma FirstBestIsQuery(q: string, choices: seq<string>, p: nat, scorer: Scorer)
    requires FirstBest(q, choices, p, scorer) && choices[p] == q && scorer(q, q) == 100.0
    ensures QueryFirstPerfect(q, choices, scorer)
  {
    forall i | 0 <= i < |choices| && scorer(q, choices[i]) == 100.0 ensures exists k :: 0 <= k <= i && choices[k] == q {
      FirstBestPerfect(q, choices, p, i, scorer);
    }
  }

  /** With no earlier perfect choice, a perfect first best choice is q. */
  lemma QueryIsFirstBest(q: string, choices: seq<string>, p: nat, scorer: Scorer)
    requires FirstBest(q, choices, p, scorer) && scorer(q, choices[p]) == 100.0
    requires QueryFirstPerfect(q, choices, scorer) && scorer(q, q) == 100.0
    ensures choices[p] == q
  {
    var k :| 0 <= k <= p && choices[k] == q;
    assert scorer(q, choices[k]) == 100.0;
  }

  /** When q is listed and scores 100 against itself, extractOne returns a perfect
      match, and it returns q itself exactly when no other perfect match comes first. */
  lemma ExtractExact(q: string, choices: seq<string>, scorer: Scorer)
    requires q in choices && scorer(q, q) == 100.0
    ensures ExtractOne(q, choices, scorer).Some? && ExtractOne(q, choices, scorer).value.score == 100.0
    ensures ExtractOne(q, choices, scorer).value.choice == q <==> QueryFirstPerfect(q, choices, scorer)
  {
    var j :| 0 <= j < |choices| && choices[j] == q;
    var m := ExtractOne(q, choices, scorer).value;
    FirstBestPerfect(q, choices, m.index, j, scorer);
    if m.choice == q {
      FirstBestIsQuery(q, choices, m.index, scorer);
    }
    if QueryFirstPerfect(q, choices, scorer) {
      QueryIsFirstBest(q, choices, m.index, scorer);
    }
  }

  /** A title t filed under the key ni, where both score 100 against themselves:
      corregir_titulo picks the first perfect key. If that key is ni, t comes back
      exactly when it wins the tie-break among ni's titles; otherwise the result is
      a title under a different key. */
  lemma ResolveExact(t: string, ni: string, keys: seq<string>, lists: map<string, seq<string>>,
                     threshold: real, scorer: Scorer)
    requires forall k :: k in keys ==> k in lists && lists[k] != []
    requires ni in keys && t in lists[ni]
    requires threshold <= 100.0 && scorer(ni, ni) == 100.0 && scorer(t, t) == 100.0
    ensures ExtractOne(ni, keys, scorer).Some? && ExtractOne(ni, keys, scorer).value.score == 100.0
    ensures ResolveTitle(t, ni, keys, lists, threshold, scorer) in lists[ExtractOne(ni, keys, scorer).value.choice]
    ensures ExtractOne(ni, keys, scorer).value.choice == ni <==> QueryFirstPerfect(ni, keys, scorer)
    ensures QueryFirstPerfect(ni, keys, scorer) ==>
              (ResolveTitle(t, ni, keys, lists, threshold, scorer) == t <==> QueryFirstPerfect(t, lists[ni], scorer))
  {
    ExtractExact(ni, keys, scorer);
    var m := ExtractOne(ni, keys, scorer).value;
    var r := ResolveTitle(t, ni, keys, lists, threshold, scorer);
    var p: nat :| FirstBest(ni, keys, p, scorer) && PickedFrom(t, lists[keys[p]], r, scorer);
    FirstBestUnique(ni, keys, p, m.index, scorer);
    if QueryFirstPerfect(ni, keys, scorer) {
      PickedOwn(t, lists[ni], r, scorer);
    }
  }

  /** The tie-break among the titles under a key returns t, one of them, exactly when
      no other perfect title comes before it. */
  lemma PickedOwn(t: string, originals: seq<string>, r: string, scorer: Scorer)
    requires t in originals && scorer(t, t) == 100.0 && PickedFrom(t, originals, r, scorer)
    ensures r == t <==> QueryFirstPerfect(t, originals, scorer)
  {
    if |originals| == 1 {
      assert originals[0] == t;
      assert QueryFirstPerfect(t, originals, scorer) by {
        forall i | 0 <= i < |originals| && scorer(t, originals[i]) == 100.0
          ensures exists k :: 0 <= k <= i && originals[k] == t
        {
          assert originals[0] == t;
        }
      }
    } else {
      ExtractExact(t, originals, scorer);
      var q: nat :| FirstBest(t, originals, q, scorer) && r == originals[q];
      FirstBestUnique(t, originals, q, ExtractOne(t, originals, scorer).value.index, scorer);
    }
  }

  /** Every title is listed under its own key, and that key is in the key list. */
  lemma TitleFiled(titles: seq<string>, norm: string -> string, i: nat)
    requires i < |titles|
    ensures var ix := TitleIndex(Keyed(titles, norm));
      norm(titles[i]) in ix.keys && norm(titles[i]) in ix.lists && titles[i] in ix.lists[norm(titles[i])]
  {
    var pairs := Keyed(titles, norm);
    assert pairs[i] == (norm(titles[i]), titles[i]);
    WithKeyComplete(pairs, i);
    TitleIndexExact(pairs, norm(titles[i]));
    assert Firsts(pairs)[i] == norm(titles[i]);
  }

  /** A title of the frame typed exactly comes back unchanged exactly when its key is
      the first perfect key and it wins the tie-break among the titles under that key.
      The result shares its normalization exactly when its key is the first perfect
      key: when only the tie-break is lost, an earlier title under the same key comes
      back; otherwise a title under a different key does. */
  lemma ExactTitleKept(c: TextCorrector, t: string, threshold: real)
    requires c.Valid()
    requires t in Titles(c.movies) && !IsBlank(t)
    requires threshold <= 100.0 && c.tokenSortRatio(Normalize(t), Normalize(t)) == 100.0
    requires c.tokenSortRatio(t, t) == 100.0
    ensures c.CorrectTitle(t, threshold) == t <==>
              && QueryFirstPerfect(Normalize(t), c.normalizedTitles, c.tokenSortRatio)
              && Normalize(t) in c.normToTitles
              && QueryFirstPerfect(t, c.normToTitles[Normalize(t)], c.tokenSortRatio)
    ensures c.CorrectTitle(t, threshold) != t ==> c.CorrectTitle(t, threshold) in Titles(c.movies)
    ensures Normalize(c.CorrectTitle(t, threshold)) == Normalize(t) <==>
              QueryFirstPerfect(Normalize(t), c.normalizedTitles, c.tokenSortRatio)
  {
    var titles := Titles(c.movies);
    var i :| 0 <= i < |titles| && titles[i] == t;
    TitleFiled(titles, Normalize, i);
    OwnTitleResolved(t, Normalize(t), c.normalizedTitles, c.normToTitles, threshold, c.tokenSortRatio, titles);
  }

  /** ResolveExact over a sound title index: t comes back exactly when its own key is
      the first perfect key and t wins the tie-break under it, and the result has t's
      normalization exactly when that key is the first perfect key. */
  lemma OwnTitleResolved(t: string, ni: string, keys: seq<string>, lists: map<string, seq<string>>,
                         threshold: real, scorer: Scorer, titles: seq<string>)
    requires TitleListsSound(keys, lists, titles) && ni == Normalize(t)
    requires ni in keys && t in lists[ni]
    requires threshold <= 100.0 && scorer(ni, ni) == 100.0 && scorer(t, t) == 100.0
    ensures ResolveTitle(t, ni, keys, lists, threshold, scorer) == t <==>
              QueryFirstPerfect(ni, keys, scorer) && ni in lists && QueryFirstPerfect(t, lists[ni], scorer)
    ensures Normalize(ResolveTitle(t, ni, keys, lists, threshold, scorer)) == ni <==> QueryFirstPerfect(ni, keys, scorer)
  {
    ResolveExact(t, ni, keys, lists, threshold, scorer);
    var r := ResolveTitle(t, ni, keys, lists, threshold, scorer);
    var m := ExtractOne(ni, keys, scorer).value;
    var k := m.choice;
    assert k in keys;
    var j :| 0 <= j < |lists[k]| && lists[k][j] == r;
    assert Normalize(lists[k][j]) == k;
  }

  /** A name whose normalization is a key of the kind's index comes back as a key
      with a perfect score, and as its own normalization exactly when no other
      perfect key comes first. */
  lemma ExactNameKept(c: TextCorrector, name: string, entity: string, threshold: real)
    requires c.Consistent()
    requires !IsBlank(name) && c.Candidates(entity).Some? && Normalize(name) in c.Candidates(entity).value
    requires threshold <= 100.0 && c.tokenSortRatio(Normalize(name), Normalize(name)) == 100.0
    ensures c.CorrectEntityName(name, entity, threshold) in c.Candidates(entity).value
    ensures c.tokenSortRatio(Normalize(name), c.CorrectEntityName(name, entity, threshold)) == 100.0
    ensures c.CorrectEntityName(name, entity, threshold) == Normalize(name) <==>
              QueryFirstPerfect(Normalize(name), c.Candidates(entity).value, c.tokenSortRatio)
  {
    var cands := c.Candidates(entity).value;
    var nn := Normalize(name);
    ExtractExact(nn, cands, c.tokenSortRatio);
    assert c.CorrectEntityName(name, entity, threshold) == MatchOrKeep(nn, cands, threshold, c.tokenSortRatio);
  }
}
