/**
 * Paths into a response document: `PathElement` and `Path`. A path is
 * written as `/`-separated text; a segment `usize::from_str` accepts is an
 * index, the segment `@` is the flatten wildcard, anything else is a key.
 */
module JsonPath {
  import opened Wrappers
  import opened Text
  import opened JsonValue

  type Usize = n: nat | n < USIZE_LIMIT

  datatype PathElement =
    | Flatten                 // fans out over every element of an array
    | Index(index: Usize)
    | Key(key: string)

  /** Rust's `Path(Vec<PathElement>)`; `len` is `|p|` and `is_empty` is `p == []`. */
  type Path = seq<PathElement>

  /** How one text segment is read, in `from_slice` and in `From<&str>`. */
  function ParseSegment(s: string): (e: PathElement)
    ensures e.Index? <==> IsUsizeText(s)
    ensures e.Index? ==> e.index == UsizeValue(s)
    ensures e == Flatten <==> s == "@"
    ensures !e.Index? ==> ElementText(e) == s
  {
    if IsUsizeText(s) then Index(UsizeValue(s))
    else if s == "@" then Flatten
    else Key(s)
  }

  /** `Path::from_slice`: every pre-split segment read on its own. */
  function FromSlice(segments: seq<string>): (p: Path)
    ensures |p| == |segments|
    ensures forall i :: 0 <= i < |p| ==> p[i] == ParseSegment(segments[i])
  {
    seq(|segments|, i requires 0 <= i < |segments| => ParseSegment(segments[i]))
  }

  /** `Path::from(text)`: split at every `/`, then read each segment. */
  function FromText(s: string): (p: Path)
    ensures |p| == |Split(s, '/')| >= 1
    ensures forall i :: 0 <= i < |p| ==> p[i].Key? ==> '/' !in p[i].key
  {
    FromSlice(Split(s, '/'))
  }

  /** What `Display` writes for one element, without the leading `/`. */
  function ElementText(e: PathElement): string
  {
    match e
    case Index(i) => NatToDecimal(i)
    case Key(k) => k
    case Flatten => "@"
  }

  /** The text `Display` produces: `/` before every element, `""` for the empty path. */
  function Render(p: Path): string
  {
    if p == [] then "" else "/" + ElementText(p[0]) + Render(p[1..])
  }

  /** `impl Display for Path`: writes the elements one after another. */
  method Display(p: Path) returns (s: string)
    ensures s == Render(p)
  {
    s := "";
    var i := 0;
    while i < |p|
      invariant 0 <= i <= |p|
      invariant s + Render(p[i..]) == Render(p)
    {
      RenderFrom(p, i);
      s := s + ("/" + ElementText(p[i]));
      i := i + 1;
    }
  }

  /** The rendering of a suffix starts with its first element. */
  lemma RenderFrom(p: Path, i: nat)
    requires i < |p|
    ensures Render(p[i..]) == ("/" + ElementText(p[i])) + Render(p[i + 1..])
  {
    assert p[i..][0] == p[i] && p[i..][1..] == p[i + 1..];
  }

  /** `Path::parent`: nothing for the empty path, otherwise all but the last element. */
  function Parent(p: Path): (r: Option<Path>)
    ensures r.None? <==> p == []
    ensures r.Some? ==> r.value + [p[|p| - 1]] == p
  {
    if p == [] then None else Some(p[..|p| - 1])
  }

  /** `Path::join`: the elements of `p` followed by those of `q`. */
  function Join(p: Path, q: Path): (r: Path)
    ensures |r| == |p| + |q| && r[..|p|] == p && r[|p|..] == q
  {
    p + q
  }

  /** The parent of a path extended by one element is the path itself. */
  lemma ParentOfJoin(p: Path, e: PathElement)
    ensures Parent(Join(p, [e])) == Some(p)
  {
    assert (p + [e])[..|p|] == p;
  }

  /** Rendering distributes over `join`. */
  lemma {:induction false} RenderJoin(p: Path, q: Path)
    ensures Render(Join(p, q)) == Render(p) + Render(q)
    decreases |p|
  {
    if p != [] {
      var head := "/" + ElementText(p[0]);
      assert (p + q)[0] == p[0] && (p + q)[1..] == p[1..] + q;
      assert Render(p + q) == head + Render(p[1..] + q);
      assert Render(p) == head + Render(p[1..]);
      RenderJoin(p[1..], q);
      ConcatAssoc(head, Render(p[1..]), Render(q));
    } else {
      assert p + q == q;
    }
  }

  lemma ConcatAssoc(a: string, b: string, c: string)
    ensures a + (b + c) == (a + b) + c
  {
  }

  /**
   * A key `Display` and `Path::from` carry through unchanged: no `/` in it,
   * not `@`, and not something `usize::from_str` accepts.
   */
  predicate PlainKey(k: string)
  {
    '/' !in k && k != "@" && !IsUsizeText(k)
  }

  predicate PlainPath(p: Path)
  {
    forall i :: 0 <= i < |p| ==> (p[i].Key? ==> PlainKey(p[i].key))
  }

  /** Every element of a plain path is read back from its own text. */
  lemma ParseElementText(e: PathElement)
    requires e.Key? ==> PlainKey(e.key)
    ensures ParseSegment(ElementText(e)) == e
    ensures '/' !in ElementText(e)
  {
    match e
    case Index(i) =>
      UsizeRoundTrip(i);
      var t := NatToDecimal(i);
      assert IsDigit(t[0]);
      assert forall j :: 0 <= j < |t| ==> t[j] != '/' by { assert IsDigits(t); }
    case Key(k) =>
    case Flatten =>
      assert !IsDigit('@');
  }

  /** The segment texts `Display` writes, in order. */
  function Segments(p: Path): (texts: seq<string>)
    ensures |texts| == |p| && forall i :: 0 <= i < |p| ==> texts[i] == ElementText(p[i])
  {
    seq(|p|, i requires 0 <= i < |p| => ElementText(p[i]))
  }

  /** `from_slice` reads back the segments of a plain path. */
  lemma SliceRoundTrip(p: Path)
    requires PlainPath(p)
    ensures FromSlice(Segments(p)) == p
  {
    forall i | 0 <= i < |p| ensures FromSlice(Segments(p))[i] == p[i] {
      ParseElementText(p[i]);
    }
  }

  /** Dropping the leading `/`, the rendering is the segments joined with `/`. */
  lemma {:induction false} RenderIsJoin(p: Path)
    requires p != []
    ensures Render(p)[1..] == JoinWith(Segments(p), '/')
    decreases |p|
  {
    if |p| > 1 {
      RenderIsJoin(p[1..]);
      assert Segments(p)[1..] == Segments(p[1..]);
      assert Render(p[1..]) == "/" + Render(p[1..])[1..];
    } else {
      assert p[1..] == [];
    }
  }

  /**
   * The round trip of the path notation: dropping the leading `/` that
   * `Display` writes and parsing with `Path::from` gives back any non-empty
   * path whose keys are plain.
   */
  lemma DisplayThenParse(p: Path)
    requires p != [] && PlainPath(p)
    ensures Render(p)[1..] == JoinWith(Segments(p), '/')
    ensures FromText(Render(p)[1..]) == p
  {
    RenderIsJoin(p);
    forall i | 0 <= i < |p| ensures '/' !in Segments(p)[i] {
      ParseElementText(p[i]);
    }
    SplitJoin(Segments(p), '/');
    SliceRoundTrip(p);
  }

  /** A segment `Display` reproduces: not an index, or an index written without `+` or leading zeros. */
  predicate CanonicalSegment(s: string)
  {
    IsUsizeText(s) ==> s[0] != '+' && (|s| == 1 || s[0] != '0')
  }

  lemma SegmentRoundTrip(s: string)
    requires CanonicalSegment(s)
    ensures ElementText(ParseSegment(s)) == s
  {
    if IsUsizeText(s) { CanonicalUsizeText(s); }
  }

  lemma SegmentsOfParse(parts: seq<string>)
    requires forall i :: 0 <= i < |parts| ==> CanonicalSegment(parts[i])
    ensures Segments(FromSlice(parts)) == parts
  {
    var p := FromSlice(parts);
    forall i | 0 <= i < |p| ensures Segments(p)[i] == parts[i] {
      SegmentRoundTrip(parts[i]);
    }
  }

  /**
   * The other round trip: parsing text whose segments are canonical and
   * displaying the path gives the text back with a `/` in front.
   */
  lemma ParseThenDisplay(s: string)
    requires forall i :: 0 <= i < |Split(s, '/')| ==> CanonicalSegment(Split(s, '/')[i])
    ensures Render(FromText(s)) == "/" + s
  {
    var parts := Split(s, '/');
    var p := FromText(s);
    SegmentsOfParse(parts);
    RenderIsJoin(p);
    JoinSplit(s, '/');
    LeadingSlash(p);
  }

  /** A non-empty path renders as `/` followed by the rest of its rendering. */
  lemma LeadingSlash(p: Path)
    requires p != []
    ensures Render(p) == "/" + Render(p)[1..]
  {
  }

  /** The empty text is one empty key, not the empty path. */
  lemma EmptyText()
    ensures FromText("") == [Key("")]
  {
  }

  /** Index text is normalised: `"007"` reads as `Index(7)`, which displays as `/7`. */
  lemma LeadingZerosNormalise()
    ensures FromText("007") == [Index(7)]
    ensures Render([Index(7)]) == "/7"
  {
    SplitWithoutSeparator("007", '/');
    assert IsDigits("007");
    assert DigitsValue("007") == 7 by {
      assert "007"[..2] == "00" && "00"[..1] == "0" && "0"[..0] == "";
    }
    assert NatToDecimal(7) == "7";
  }

  /** A numeric key does not survive the text form: `Key("3")` displays as `/3`, which reads as `Index(3)`. */
  lemma NumericKeyIsLossy()
    ensures Render([Key("3")]) == "/3"
    ensures FromText("3") == [Index(3)]
  {
    SplitWithoutSeparator("3", '/');
    assert IsDigits("3") && DigitsValue("3") == 3 by { assert "3"[..0] == ""; }
  }

  // ------------------------------------------------------------------ serde

  /**
   * The serde form of a `PathElement` (`#[serde(untagged)]`): `Flatten` as
   * the string `"@"`, an index as a number, a key as a string.
   */
  function EncodeElement(e: PathElement): (v: Value)
    ensures v.String? || v.Number?
    ensures e.Index? <==> v.Number?
    ensures e.Index? ==> v.n == e.index
    ensures e == Flatten ==> v == String("@")
    ensures e.Key? ==> v == String(e.key)
  {
    match e
    case Flatten => String("@")
    case Index(i) => Number(i)
    case Key(k) => String(k)
  }

  /**
   * Untagged decoding tries the variants in declaration order: `Flatten`
   * accepts only the string `"@"`, `Index` a number that fits a `usize`,
   * `Key` any string; anything else is an error.
   */
  function DecodeElement(v: Value): (r: Option<PathElement>)
    ensures r.Some? <==> v.String? || (v.Number? && 0 <= v.n < USIZE_LIMIT)
  {
    if v == String("@") then Some(Flatten)
    else if v.Number? && 0 <= v.n < USIZE_LIMIT then Some(Index(v.n))
    else if v.String? then Some(Key(v.str))
    else None
  }

  /**
   * Decoding inverts encoding for every element except `Key("@")`, which
   * encodes exactly like `Flatten` and so decodes as `Flatten`.
   */
  lemma ElementWireRoundTrip(e: PathElement)
    ensures e != Key("@") ==> DecodeElement(EncodeElement(e)) == Some(e)
    ensures e == Key("@") ==> DecodeElement(EncodeElement(e)) == Some(Flatten)
  {
  }

  /** Whatever decodes, re-encodes to the same wire value. */
  lemma WireElementRoundTrip(v: Value)
    requires DecodeElement(v).Some?
    ensures EncodeElement(DecodeElement(v).value) == v
  {
  }

  /** `#[serde(transparent)]`: a path is the array of its encoded elements. */
  function EncodePath(p: Path): (v: Value)
    ensures v.Array? && |v.elems| == |p|
    ensures forall i :: 0 <= i < |p| ==> v.elems[i] == EncodeElement(p[i])
  {
    Array(seq(|p|, i requires 0 <= i < |p| => EncodeElement(p[i])))
  }

  /** Decoding a path fails as a whole if any element fails. */
  function DecodeElements(vs: seq<Value>): (r: Option<Path>)
    ensures r.Some? <==> forall i :: 0 <= i < |vs| ==> DecodeElement(vs[i]).Some?
    ensures r.Some? ==> |r.value| == |vs| && forall i :: 0 <= i < |vs| ==> r.value[i] == DecodeElement(vs[i]).value
  {
    if vs == [] then Some([])
    else match (DecodeElement(vs[0]), DecodeElements(vs[1..]))
      case (Some(e), Some(rest)) => Some([e] + rest)
      case _ => None
  }

  function DecodePath(v: Value): Option<Path>
  {
    if v.Array? then DecodeElements(v.elems) else None
  }

  /** A path without `Key("@")` survives the wire form. */
  lemma PathWireRoundTrip(p: Path)
    requires forall i :: 0 <= i < |p| ==> p[i] != Key("@")
    ensures DecodePath(EncodePath(p)) == Some(p)
  {
    var vs := EncodePath(p).elems;
    forall i | 0 <= i < |p| ensures DecodeElement(vs[i]) == Some(p[i]) {
      ElementWireRoundTrip(p[i]);
    }
    var r := DecodeElements(vs);
    assert r.Some?;
    assert r.value == p;
  }
}
