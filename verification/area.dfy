/**
 * `create_area_gdf`: an area's nested coordinate lists are turned into text,
 * stripped of brackets and spaces, split on commas and paired up, even
 * positions as longitudes and odd positions as latitudes.
 */
module Area {
  import opened Common

  // ---------------------------------------------------------------------------
  // Nested coordinates and their Python text

  /** A JSON coordinate array: a number (kept as its printed text) or a list. */
  datatype Coords = Num(text: string) | List(items: seq<Coords>)

  /** `str(coordinates)`: brackets around the items, separated by a comma and a space. */
  function Str(c: Coords): string
    decreases c, 1
  {
    match c
    case Num(t) => t
    case List(items) => "[" + StrItems(items) + "]"
  }

  function StrItems(items: seq<Coords>): string
    decreases items, 0
  {
    if items == [] then ""
    else if |items| == 1 then Str(items[0])
    else Str(items[0]) + ", " + StrItems(items[1..])
  }

  /** The printed numbers of `c`, depth first, left to right: the nesting erased. */
  function Leaves(c: Coords): seq<string>
    decreases c, 1
  {
    match c
    case Num(t) => [t]
    case List(items) => LeavesItems(items)
  }

  function LeavesItems(items: seq<Coords>): seq<string>
    decreases items, 0
  {
    if items == [] then [] else Leaves(items[0]) + LeavesItems(items[1..])
  }

  /** A printed number holds no bracket, space or comma. */
  predicate NumberText(t: string)
  {
    '[' !in t && ']' !in t && ' ' !in t && ',' !in t
  }

  /** Every list is non-empty and every number prints as a plain number. */
  predicate WellNested(c: Coords)
    decreases c, 1
  {
    match c
    case Num(t) => NumberText(t)
    case List(items) => items != [] && WellNestedItems(items)
  }

  predicate WellNestedItems(items: seq<Coords>)
    decreases items, 0
  {
    items == [] || (WellNested(items[0]) && WellNestedItems(items[1..]))
  }

  // ---------------------------------------------------------------------------
  // Cleaning

  /** `s.replace(c, '')` */
  function RemoveChar(s: string, c: char): (r: string)
    ensures c !in r
    ensures forall x :: x != c ==> (x in r <==> x in s)
  {
    if s == [] then []
    else (if s[0] == c then [] else [s[0]]) + RemoveChar(s[1..], c)
  }

  lemma {:induction false} RemoveCharAppend(a: string, b: string, c: char)
    ensures RemoveChar(a + b, c) == RemoveChar(a, c) + RemoveChar(b, c)
  {
    if a != [] {
      var head := if a[0] == c then [] else [a[0]];
      assert (a + b)[0] == a[0] && (a + b)[1..] == a[1..] + b;
      assert RemoveChar(a + b, c) == head + RemoveChar(a[1..] + b, c);
      RemoveCharAppend(a[1..], b, c);
      assert RemoveChar(a, c) == head + RemoveChar(a[1..], c);
    } else {
      assert a + b == b;
    }
  }

  lemma {:induction false} RemoveCharAbsent(s: string, c: char)
    requires c !in s
    ensures RemoveChar(s, c) == s
  {
    if s != [] {
      assert c !in s[1..];
      RemoveCharAbsent(s[1..], c);
    }
  }

  /** The three `str.replace` calls: opening brackets, closing brackets, spaces. */
  function Clean(s: string): (r: string)
    ensures '[' !in r && ']' !in r && ' ' !in r
    ensures forall x :: x != '[' && x != ']' && x != ' ' ==> (x in r <==> x in s)
  {
    RemoveChar(RemoveChar(RemoveChar(s, '['), ']'), ' ')
  }

  /** Cleaning works piece by piece. */
  lemma CleanAppend(a: string, b: string)
    ensures Clean(a + b) == Clean(a) + Clean(b)
  {
    RemoveCharAppend(a, b, '[');
    RemoveCharAppend(RemoveChar(a, '['), RemoveChar(b, '['), ']');
    RemoveCharAppend(RemoveChar(RemoveChar(a, '['), ']'), RemoveChar(RemoveChar(b, '['), ']'), ' ');
  }

  /** A printed number is left as it is. */
  lemma CleanNumber(t: string)
    requires NumberText(t)
    ensures Clean(t) == t
  {
    RemoveCharAbsent(t, '[');
    RemoveCharAbsent(t, ']');
    RemoveCharAbsent(t, ' ');
  }

  // ---------------------------------------------------------------------------
  // Splitting on commas, and its inverse

  /** `s.split(sep)`: always at least one piece, an empty string giving `[""]`. */
  function Split(s: string, sep: char): (r: seq<string>)
    ensures |r| >= 1
  {
    if s == [] then [[]]
    else
      var rest := Split(s[1..], sep);
      if s[0] == sep then [[]] + rest else [[s[0]] + rest[0]] + rest[1..]
  }

  /** `sep.join(ts)` of a non-empty list. */
  function Join(ts: seq<string>, sep: char): string
    requires ts != []
  {
    if |ts| == 1 then ts[0] else ts[0] + [sep] + Join(ts[1..], sep)
  }

  predicate FreeOf(ts: seq<string>, sep: char)
  {
    forall k :: 0 <= k < |ts| ==> sep !in ts[k]
  }

  /** No piece of a split holds the separator. */
  lemma {:induction false} SplitPiecesFreeOf(s: string, sep: char)
    ensures FreeOf(Split(s, sep), sep)
  {
    if s != [] {
      SplitPiecesFreeOf(s[1..], sep);
    }
  }

  /** Joining the pieces of a split gives back the text. */
  lemma {:induction false} JoinSplit(s: string, sep: char)
    ensures Join(Split(s, sep), sep) == s
  {
    if s != [] {
      var rest := Split(s[1..], sep);
      JoinSplit(s[1..], sep);
      if s[0] == sep {
        assert ([[]] + rest)[1..] == rest;
      } else {
        var r := [[s[0]] + rest[0]] + rest[1..];
        if |rest| > 1 {
          assert r[1..] == rest[1..];
          assert Join(rest, sep) == rest[0] + [sep] + Join(rest[1..], sep);
        }
        assert s == [s[0]] + s[1..];
      }
    }
  }

  /** Splitting a piece free of the separator, then the separator, then more text. */
  lemma {:induction false} SplitAfterPiece(t: string, rest: string, sep: char)
    requires sep !in t
    ensures Split(t + [sep] + rest, sep) == [t] + Split(rest, sep)
    ensures Split(t, sep) == [t]
  {
    if t != [] {
      assert (t + [sep] + rest)[1..] == t[1..] + [sep] + rest;
      SplitAfterPiece(t[1..], rest, sep);
      assert [t[0]] + t[1..] == t;
    }
  }

  /** Splitting a join of pieces free of the separator gives back the pieces. */
  lemma {:induction false} SplitJoin(ts: seq<string>, sep: char)
    requires ts != [] && FreeOf(ts, sep)
    ensures Split(Join(ts, sep), sep) == ts
  {
    assert sep !in ts[0];
    if |ts| == 1 {
      SplitAfterPiece(ts[0], [], sep);
    } else {
      SplitJoin(ts[1..], sep);
      SplitAfterPiece(ts[0], Join(ts[1..], sep), sep);
      assert [ts[0]] + ts[1..] == ts;
    }
  }

  lemma {:induction false} JoinAppend(a: seq<string>, b: seq<string>, sep: char)
    requires a != [] && b != []
    ensures Join(a + b, sep) == Join(a, sep) + [sep] + Join(b, sep)
  {
    if |a| == 1 {
      assert (a + b)[1..] == b;
    } else {
      assert (a + b)[1..] == a[1..] + b;
      JoinAppend(a[1..], b, sep);
    }
  }

  // ---------------------------------------------------------------------------
  // The cleaned text of well-nested coordinates

  /**
   * Printing, then cleaning, leaves the numbers of a well-nested array joined
   * by commas: the nesting (rings included) is erased.
   */
  lemma {:induction false} CleanStr(c: Coords)
    requires WellNested(c)
    ensures Leaves(c) != [] && FreeOf(Leaves(c), ',')
    ensures Clean(Str(c)) == Join(Leaves(c), ',')
    decreases c, 1
  {
    match c
    case Num(t) =>
      CleanNumber(t);
    case List(items) =>
      CleanStrItems(items);
      CleanBracketed(StrItems(items));
  }

  /** Cleaning drops the brackets around a list. */
  lemma CleanBracketed(s: string)
    ensures Clean("[" + s + "]") == Clean(s)
  {
    CleanAppend("[" + s, "]");
    CleanAppend("[", s);
    assert Clean("[") == [] && Clean("]") == [];
  }

  lemma {:induction false} CleanStrItems(items: seq<Coords>)
    requires items != [] && WellNestedItems(items)
    ensures LeavesItems(items) != [] && FreeOf(LeavesItems(items), ',')
    ensures Clean(StrItems(items)) == Join(LeavesItems(items), ',')
    decreases items, 0
  {
    CleanStr(items[0]);
    if |items| == 1 {
      assert LeavesItems(items[1..]) == [];
      assert LeavesItems(items) == Leaves(items[0]);
    } else {
      CleanStrItems(items[1..]);
      CleanAppend(Str(items[0]) + ", ", StrItems(items[1..]));
      CleanAppend(Str(items[0]), ", ");
      assert Clean(", ") == ",";
      JoinAppend(Leaves(items[0]), LeavesItems(items[1..]), ',');
    }
  }

  // ---------------------------------------------------------------------------
  // De-interleaving and pairing

  /** `x[::2]`: the elements at even positions. */
  function EveryOther<T>(s: seq<T>): (r: seq<T>)
    ensures |r| == (|s| + 1) / 2
    ensures forall k :: 0 <= k < |r| ==> r[k] == s[2 * k]
  {
    if s == [] then []
    else if |s| == 1 then [s[0]]
    else [s[0]] + EveryOther(s[2..])
  }

  /** `zip(a, b)`: pairs up to the shorter list. */
  function Zip<A, B>(a: seq<A>, b: seq<B>): (r: seq<(A, B)>)
    ensures |r| == if |a| < |b| then |a| else |b|
    ensures forall k :: 0 <= k < |r| ==> r[k] == (a[k], b[k])
  {
    if a == [] || b == [] then [] else [(a[0], b[0])] + Zip(a[1..], b[1..])
  }

  /** `np.array(x, dtype=np.float32)`: every piece parsed, or None where one does not parse. */
  function ParseAll(ts: seq<string>, parse: string -> Option<real>): (r: Option<seq<real>>)
    ensures r.None? <==> exists k :: 0 <= k < |ts| && parse(ts[k]).None?
    ensures r.Some? ==> |r.value| == |ts| && forall k :: 0 <= k < |ts| ==> Some(r.value[k]) == parse(ts[k])
  {
    if ts == [] then Some([])
    else
      var rest := ParseAll(ts[1..], parse);
      if parse(ts[0]).None? then None
      else if rest.None? then
        var k :| 0 <= k < |ts[1..]| && parse(ts[1..][k]).None?;
        assert parse(ts[k + 1]).None?;
        None
      else
        assert forall k :: 0 < k < |ts| ==> ts[k] == ts[1..][k - 1];
        Some([parse(ts[0]).value] + rest.value)
  }

  // ---------------------------------------------------------------------------
  // Records

  /** The `geometrie` field of a record: its `type` and `coordinates`. */
  datatype Geometrie = Geometrie(geomType: string, coordinates: Coords)

  /** One record of the raw data: the fields used here, and the others, which are dropped. */
  datatype RawArea = RawArea(naam: string, code: string, geometrie: Geometrie, others: map<string, string>)

  /** A row of the result: name, code and the polygon's vertices. */
  datatype AreaRow = AreaRow(naam: string, code: string, geometry: seq<(real, real)>)

  /** The comma-separated pieces of the cleaned coordinate text. */
  function Tokens(c: Coords): (ts: seq<string>)
    ensures ts != [] && FreeOf(ts, ',')
  {
    SplitPiecesFreeOf(Clean(Str(c)), ',');
    Split(Clean(Str(c)), ',')
  }

  /**
   * A vertex list shapely's `Polygon` accepts as its shell: none at all (the
   * empty polygon) or at least three; one or two raise a ValueError.
   */
  predicate ShellOk(vs: seq<(real, real)>)
  {
    |vs| == 0 || |vs| >= 3
  }

  /**
   * One row of `create_area_gdf`; None where a piece does not parse as a
   * number or the polygon's shell has one or two vertices.
   */
  function CreateAreaRow(raw: RawArea, parse: string -> Option<real>): (r: Option<AreaRow>)
    ensures r.Some? ==> r.value.naam == raw.naam && r.value.code == raw.code && ShellOk(r.value.geometry)
  {
    var ts := Tokens(raw.geometrie.coordinates);
    match (ParseAll(EveryOther(ts), parse), ParseAll(EveryOther(ts[1..]), parse))
    case (Some(lon), Some(lat)) =>
      var vs := Zip(lon, lat);
      if ShellOk(vs) then Some(AreaRow(raw.naam, raw.code, vs)) else None
    case _ => None
  }

  /** `create_area_gdf`: every record converted, or None where one fails (the whole call raises). */
  function CreateAreaGdf(raws: seq<RawArea>, parse: string -> Option<real>): (r: Option<seq<AreaRow>>)
    ensures r.Some? <==> forall i :: 0 <= i < |raws| ==> CreateAreaRow(raws[i], parse).Some?
    ensures r.Some? ==> |r.value| == |raws|
    ensures r.Some? ==> forall i :: 0 <= i < |raws| ==> Some(r.value[i]) == CreateAreaRow(raws[i], parse)
  {
    if raws == [] then Some([])
    else
      match (CreateAreaRow(raws[0], parse), CreateAreaGdf(raws[1..], parse))
      case (Some(a), Some(rest)) =>
        assert forall i :: 0 < i < |raws| ==> raws[i] == raws[1..][i - 1];
        Some([a] + rest)
      case (None, _) => None
      case (_, None) =>
        assert forall i :: 0 <= i < |raws[1..]| ==> raws[1..][i] == raws[i + 1];
        None
  }

  // ---------------------------------------------------------------------------
  // Properties

  /**
   * Vertex k of a converted row is the pair of pieces 2k and 2k+1; there are
   * `⌊n/2⌋` vertices for n pieces, a trailing odd piece being dropped.
   */
  lemma RowVertices(raw: RawArea, parse: string -> Option<real>)
    requires CreateAreaRow(raw, parse).Some?
    ensures var ts := Tokens(raw.geometrie.coordinates);
      var g := CreateAreaRow(raw, parse).value.geometry;
      && |g| == |ts| / 2
      && forall k :: 0 <= k < |g| ==> Some(g[k].0) == parse(ts[2 * k]) && Some(g[k].1) == parse(ts[2 * k + 1])
  {
    var ts := Tokens(raw.geometrie.coordinates);
    var lon := ParseAll(EveryOther(ts), parse).value;
    var lat := ParseAll(EveryOther(ts[1..]), parse).value;
    var g := CreateAreaRow(raw, parse).value.geometry;
    assert g == Zip(lon, lat);
    forall k | 0 <= k < |g|
      ensures Some(g[k].0) == parse(ts[2 * k]) && Some(g[k].1) == parse(ts[2 * k + 1])
    {
      assert EveryOther(ts[1..])[k] == ts[1..][2 * k] == ts[2 * k + 1];
    }
  }

  /**
   * A row converts iff every piece parses and the piece count is not 2 to 5,
   * the counts that pair up into one or two vertices.
   */
  lemma CreateAreaRowOutcome(raw: RawArea, parse: string -> Option<real>)
    ensures var ts := Tokens(raw.geometrie.coordinates);
      CreateAreaRow(raw, parse).Some? <==>
        (forall k :: 0 <= k < |ts| ==> parse(ts[k]).Some?) && !(2 <= |ts| <= 5)
  {
    var ts := Tokens(raw.geometrie.coordinates);
    if forall k :: 0 <= k < |ts| ==> parse(ts[k]).Some? {
      AllParse(ts, parse);
    } else {
      var k :| 0 <= k < |ts| && parse(ts[k]).None?;
      OneFails(ts, parse, k);
    }
  }

  /** When every piece parses, both halves parse and pair into ⌊n/2⌋ vertices. */
  lemma AllParse(ts: seq<string>, parse: string -> Option<real>)
    requires ts != [] && forall k :: 0 <= k < |ts| ==> parse(ts[k]).Some?
    ensures ParseAll(EveryOther(ts), parse).Some? && ParseAll(EveryOther(ts[1..]), parse).Some?
    ensures |Zip(ParseAll(EveryOther(ts), parse).value, ParseAll(EveryOther(ts[1..]), parse).value)| == |ts| / 2
  {
    var evens, odds := EveryOther(ts), EveryOther(ts[1..]);
    forall j | 0 <= j < |evens| ensures parse(evens[j]).Some? {
      assert evens[j] == ts[2 * j];
    }
    forall j | 0 <= j < |odds| ensures parse(odds[j]).Some? {
      assert odds[j] == ts[1..][2 * j] == ts[2 * j + 1];
    }
  }

  /** A piece that does not parse makes its half fail. */
  lemma OneFails(ts: seq<string>, parse: string -> Option<real>, k: int)
    requires 0 <= k < |ts| && parse(ts[k]).None?
    ensures ParseAll(EveryOther(ts), parse).None? || ParseAll(EveryOther(ts[1..]), parse).None?
  {
    if k % 2 == 0 {
      var evens := EveryOther(ts);
      assert evens[k / 2] == ts[k];
      assert 0 <= k / 2 < |evens| && parse(evens[k / 2]).None?;
    } else {
      var odds := EveryOther(ts[1..]);
      assert odds[k / 2] == ts[1..][k - 1] == ts[k];
      assert 0 <= k / 2 < |odds| && parse(odds[k / 2]).None?;
    }
  }

  /** The pieces of well-nested coordinates are their numbers, all rings run together. */
  lemma TokensAreLeaves(c: Coords)
    requires WellNested(c)
    ensures Tokens(c) == Leaves(c)
  {
    CleanStr(c);
    SplitJoin(Leaves(c), ',');
  }

  /** Several rings: their vertices are concatenated into one list. */
  lemma RingsConcatenated(outer: seq<Coords>, inner: seq<Coords>)
    requires WellNested(List(outer)) && WellNested(List(inner))
    ensures WellNested(List([List(outer), List(inner)]))
    ensures Tokens(List([List(outer), List(inner)])) == Leaves(List(outer)) + Leaves(List(inner))
  {
    var c := List([List(outer), List(inner)]);
    assert [List(outer), List(inner)][1..] == [List(inner)];
    assert WellNestedItems([List(outer), List(inner)]);
    TokensAreLeaves(c);
    assert LeavesItems([List(inner)]) == Leaves(List(inner)) by {
      assert [List(inner)][1..] == [];
    }
  }
}
