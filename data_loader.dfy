/** app/utils/data_loader.py: the row preprocessing of load_data and the content
    profile built for each movie. CSV reading, ast.literal_eval of the list columns and
    pd.to_datetime are library parsing: a raw row arrives with its list columns already
    parsed and its release year already extracted. */
module DataLoader {
  import opened Wrappers
  import opened Text
  import opened PyList

  /** One CSV row, before fillna. */
  datatype RawMovie = RawMovie(
    id: int,
    title: string,
    overview: Option<string>,
    director: Option<string>,
    genres: seq<string>,
    cast: seq<string>,
    productionCompanies: seq<string>,
    releaseYear: Option<int>,
    voteAverage: real,
    popularity: real,
    runtime: real,
    budget: real)

  /** One row of the loaded frame. numGenres, numCast and contentProfile are the
      columns load_data adds after de-duplication; before that step they hold 0, 0, "". */
  datatype Movie = Movie(
    id: int,
    title: string,
    overview: string,
    director: string,
    genres: seq<string>,
    cast: seq<string>,
    productionCompanies: seq<string>,
    releaseYear: Option<int>,
    voteAverage: real,
    popularity: real,
    runtime: real,
    budget: real,
    numGenres: nat,
    numCast: nat,
    contentProfile: string)

  /** The placeholder fillna puts in a missing director cell. */
  const UnknownDirector: string := "Unknown"

  /** fillna: a missing overview becomes "", a missing director becomes "Unknown". */
  function FillMissing(r: RawMovie): (m: Movie)
    ensures m.overview == (if r.overview.Some? then r.overview.value else "")
    ensures m.director == (if r.director.Some? then r.director.value else UnknownDirector)
    ensures m.id == r.id && m.title == r.title && m.genres == r.genres && m.cast == r.cast
    ensures m.productionCompanies == r.productionCompanies
    ensures && m.releaseYear == r.releaseYear && m.voteAverage == r.voteAverage && m.popularity == r.popularity
            && m.runtime == r.runtime && m.budget == r.budget
    ensures m.numGenres == 0 && m.numCast == 0 && m.contentProfile == ""
  {
    Movie(r.id, r.title, r.overview.GetOr(""), r.director.GetOr(UnknownDirector),
          r.genres, r.cast, r.productionCompanies, r.releaseYear,
          r.voteAverage, r.popularity, r.runtime, r.budget, 0, 0, "")
  }

  /** _crear_content_profile: genres, cast, companies, director and overview joined by
      single spaces, lower-cased. */
  function ContentProfile(m: Movie): string {
    Lower(Join(m.genres, ' ') + " " + Join(m.cast, ' ') + " " + Join(m.productionCompanies, ' ')
          + " " + m.director + " " + m.overview)
  }

  /** The profile is the five lower-cased fields in a fixed order with exactly four
      separating spaces, whatever the fields hold (an empty list gives an empty
      segment), and it has no upper-case ASCII letter. */
  lemma ContentProfileLayout(m: Movie)
    ensures ContentProfile(m) == Lower(Join(m.genres, ' ')) + " " + Lower(Join(m.cast, ' ')) + " "
      + Lower(Join(m.productionCompanies, ' ')) + " " + Lower(m.director) + " " + Lower(m.overview)
    ensures |ContentProfile(m)| == |Join(m.genres, ' ')| + |Join(m.cast, ' ')|
      + |Join(m.productionCompanies, ' ')| + |m.director| + |m.overview| + 4
    ensures NoUpper(ContentProfile(m))
  {
    var g, c, p := Join(m.genres, ' '), Join(m.cast, ' '), Join(m.productionCompanies, ' ');
    var d, o := m.director, m.overview;
    assert Lower(" ") == " ";
    LowerDistributes(g + " " + c + " " + p + " " + d + " ", o);
    LowerDistributes(g + " " + c + " " + p + " " + d, " ");
    LowerDistributes(g + " " + c + " " + p + " ", d);
    LowerDistributes(g + " " + c + " " + p, " ");
    LowerDistributes(g + " " + c + " ", p);
    LowerDistributes(g + " " + c, " ");
    LowerDistributes(g + " ", c);
    LowerDistributes(g, " ");
  }

  /** The columns load_data derives: num_genres, num_cast and content_profile. */
  function AddDerived(m: Movie): (d: Movie)
    ensures d.numGenres == |m.genres| && d.numCast == |m.cast|
    ensures d.contentProfile == ContentProfile(m)
    ensures d.(numGenres := 0, numCast := 0, contentProfile := "") == m.(numGenres := 0, numCast := 0, contentProfile := "")
  {
    m.(numGenres := |m.genres|, numCast := |m.cast|, contentProfile := ContentProfile(m))
  }

  function Ids(rows: seq<Movie>): (ids: seq<int>)
    ensures |ids| == |rows|
    ensures forall i :: 0 <= i < |rows| ==> ids[i] == rows[i].id
  {
    seq(|rows|, i requires 0 <= i < |rows| => rows[i].id)
  }

  /** The index labels drop_duplicates(subset=['id']) leaves on the frame: the
      original positions of the rows it keeps. */
  function KeptLabels(rows: seq<Movie>): seq<nat> {
    FirstPositions(Ids(rows))
  }

  /** drop_duplicates(subset=['id']): the rows at the kept labels, in order. */
  function DropDuplicateIds(rows: seq<Movie>): (r: seq<Movie>)
    ensures |r| == |KeptLabels(rows)|
    ensures forall k :: 0 <= k < |r| ==> r[k] == rows[KeptLabels(rows)[k]]
  {
    var labels := KeptLabels(rows);
    seq(|labels|, k requires 0 <= k < |labels| => rows[labels[k]])
  }

  /** De-duplication keeps exactly the first row of each id, preserves the relative
      order of the rows it keeps, and leaves every id with exactly one row. */
  lemma DropDuplicatesKeepsFirst(rows: seq<Movie>)
    ensures var r, labels := DropDuplicateIds(rows), KeptLabels(rows);
      && (forall k, l :: 0 <= k < l < |labels| ==> labels[k] < labels[l])
      && (forall k :: 0 <= k < |r| ==>
            labels[k] < |rows| && r[k] == rows[labels[k]] && forall j :: 0 <= j < labels[k] ==> rows[j].id != r[k].id)
      && Distinct(Ids(r))
      && (forall i :: 0 <= i < |rows| ==> rows[i].id in Ids(r))
  {
    var r, labels, ids := DropDuplicateIds(rows), KeptLabels(rows), Ids(rows);
    forall k | 0 <= k < |r| ensures forall j :: 0 <= j < labels[k] ==> rows[j].id != r[k].id {
      assert IsFirst(ids, labels[k]);
      forall j | 0 <= j < labels[k] ensures rows[j].id != r[k].id {
        assert ids[..labels[k]][j] == ids[j];
      }
    }
    assert Ids(r) == Dedup(ids);
  }

  /** With distinct ids nothing is dropped, and the labels are the row positions. */
  lemma UniqueIdsKeepLabels(rows: seq<Movie>)
    requires Distinct(Ids(rows))
    ensures DropDuplicateIds(rows) == rows
    ensures forall k :: 0 <= k < |KeptLabels(rows)| ==> KeptLabels(rows)[k] == k
  {
    var ids, labels := Ids(rows), KeptLabels(rows);
    forall i | 0 <= i < |rows| ensures i in labels {
      assert ids[i] !in ids[..i];
      assert IsFirst(ids, i);
    }
    LabelsArePositions(labels, |rows|);
  }

  /** A strictly increasing list of positions below n that contains all of them is 0, 1, ..., n-1. */
  lemma LabelsArePositions(labels: seq<nat>, n: nat)
    requires forall k, l :: 0 <= k < l < |labels| ==> labels[k] < labels[l]
    requires forall k :: 0 <= k < |labels| ==> labels[k] < n
    requires forall i :: 0 <= i < n ==> i in labels
    ensures |labels| == n
    ensures forall k :: 0 <= k < |labels| ==> labels[k] == k
  {
    forall k | 0 <= k < |labels| ensures labels[k] == k {
      LabelAtPosition(labels, n, k);
    }
    assert |labels| < n ==> |labels| in labels;
    assert |labels| > 0 ==> labels[|labels| - 1] == |labels| - 1 < n;
  }

  lemma {:induction false} LabelAtPosition(labels: seq<nat>, n: nat, k: nat)
    requires forall a, b :: 0 <= a < b < |labels| ==> labels[a] < labels[b]
    requires forall a :: 0 <= a < |labels| ==> labels[a] < n
    requires forall i :: 0 <= i < n ==> i in labels
    requires k < |labels|
    ensures labels[k] == k
    decreases k
  {
    AtLeastPosition(labels, k);
    assert k in labels;
    var k' :| 0 <= k' < |labels| && labels[k'] == k;
    if k' < k {
      LabelAtPosition(labels, n, k');
    }
  }

  lemma {:induction false} AtLeastPosition(labels: seq<nat>, k: nat)
    requires forall a, b :: 0 <= a < b < |labels| ==> labels[a] < labels[b]
    requires k < |labels|
    ensures labels[k] >= k
  {
    if k > 0 { AtLeastPosition(labels, k - 1); }
  }

  /** The rows after fillna on 'overview' and 'director'. */
  function Filled(raw: seq<RawMovie>): (r: seq<Movie>)
    ensures |r| == |raw|
    ensures forall i :: 0 <= i < |raw| ==> r[i] == FillMissing(raw[i])
  {
    seq(|raw|, i requires 0 <= i < |raw| => FillMissing(raw[i]))
  }

  /** The frame load_data builds: the first row of each id, filled and with the
      derived columns added. */
  function Loaded(raw: seq<RawMovie>): (df: seq<Movie>)
    ensures |df| == |KeptLabels(Filled(raw))|
  {
    var kept := DropDuplicateIds(Filled(raw));
    seq(|kept|, i requires 0 <= i < |kept| => AddDerived(kept[i]))
  }

  /** Each row of the loaded frame is the filled, derived form of the row at its label;
      no earlier row has its id; labels ascend; ids are unique and every id survives. */
  lemma LoadedFacts(raw: seq<RawMovie>)
    ensures var df, labels := Loaded(raw), KeptLabels(Filled(raw));
      && (forall k :: 0 <= k < |df| ==> labels[k] < |raw| && df[k] == AddDerived(FillMissing(raw[labels[k]])))
      && (forall k :: 0 <= k < |df| ==> forall j :: 0 <= j < labels[k] ==> raw[j].id != df[k].id)
      && (forall k, l :: 0 <= k < l < |labels| ==> labels[k] < labels[l])
      && Distinct(Ids(df))
      && (forall i :: 0 <= i < |raw| ==> raw[i].id in Ids(df))
  {
    var filled := Filled(raw);
    assert forall i :: 0 <= i < |raw| ==> filled[i].id == raw[i].id;
    DropDuplicatesKeepsFirst(filled);
    var kept := DropDuplicateIds(filled);
    assert Ids(Loaded(raw)) == Ids(kept);
  }

  /** The frame load_data leaves in self.df. */
  class Loader {
    var df: seq<Movie>
    /** df.index after drop_duplicates: not reset, so it keeps the original positions. */
    var labels: seq<nat>

    constructor ()
      ensures df == [] && labels == []
    {
      df := [];
      labels := [];
    }

    /** load_data's preprocessing, one column step after another. */
    method LoadData(raw: seq<RawMovie>)
      modifies this
      ensures |df| == |labels|
      ensures forall k :: 0 <= k < |df| ==> labels[k] < |raw| && df[k] == AddDerived(FillMissing(raw[labels[k]]))
      ensures forall k :: 0 <= k < |df| ==> forall j :: 0 <= j < labels[k] ==> raw[j].id != df[k].id
      ensures forall k, l :: 0 <= k < l < |labels| ==> labels[k] < labels[l]
      ensures Distinct(Ids(df))
      ensures forall i :: 0 <= i < |raw| ==> raw[i].id in Ids(df)
    {
      // fillna on 'overview' and 'director'
      var filled := seq(|raw|, i requires 0 <= i < |raw| => FillMissing(raw[i]));
      assert filled == Filled(raw);
      // drop_duplicates(subset=['id'])
      var kept := DropDuplicateIds(filled);
      labels := KeptLabels(filled);
      // num_genres, num_cast and content_profile
      df := seq(|kept|, i requires 0 <= i < |kept| => AddDerived(kept[i]));
      assert df == Loaded(raw);
      LoadedFacts(raw);
    }
  }

  /** Two rows sharing id 7 followed by one with id 8: the kept rows carry labels 0 and 2,
      so the second kept row's label is not a position of the two-row frame. */
  lemma DuplicateIdShiftsLabels(a: Movie, b: Movie, c: Movie)
    requires a.id == 7 && b.id == 7 && c.id == 8
    ensures KeptLabels([a, b, c]) == [0, 2]
    ensures |DropDuplicateIds([a, b, c])| == 2
    ensures KeptLabels([a, b, c])[1] >= |DropDuplicateIds([a, b, c])|
  {
    var ids := Ids([a, b, c]);
    assert ids == [7, 7, 8];
    assert ids[..2] == [7, 7] && ids[..1] == [7];
    assert FirstPositions(ids[..1]) == [0];
    assert FirstPositions(ids[..2]) == [0];
    assert FirstPositions(ids) == [0, 2];
  }
}
