// The Videoscape GEO format as the importer reads it: the entities it builds
// and pure descriptions of what each stage of the import computes from the
// lines of a file. The importer class in GeoLoader is proved against these.
module GeoFormat {
  import opened ParsingUtils
  import opened GeoHelper

  /** The structural variant of a file, selected by the 4th character of its signature. */
  datatype Flavor =
    | MeshWithColouredFaces
    | MeshWithColouredVertices
    | Lamp
    | GouraudCurvesOrNurbsSurfaces

  /** The causes with which an import is aborted. */
  datatype ImportError =
    | UnknownFileVersion     // a signature line with an unknown 4th character
    | MissingElementCount    // the input ends inside the header (see the Findings in README.md)
    | FlavourNotSet          // dispatch reached with no flavour selected
    | CurvesNotSupported     // the curve and surface reader always gives up
    | NoValidFaces           // no face line with a nonzero index count

  datatype Result<T> = Success(value: T) | Failure(error: ImportError)

  datatype Vec3 = Vec3(x: Decimal, y: Decimal, z: Decimal)

  /** A default-constructed vector (all components 0). */
  const ZERO_VECTOR: Vec3 := Vec3(Decimal(0, 0), Decimal(0, 0), Decimal(0, 0))

  /**
   * An RGBA colour: Unset is a default-constructed colour (all channels 0),
   * TableEntry(i) is entry i of the importer's fixed 16-colour table, and
   * Rgb(r, g, b) stands for (r/255, g/255, b/255, 1).
   */
  datatype Colour = Unset | TableEntry(index: nat) | Rgb(r: nat, g: nat, b: nat)

  /** A face of the output mesh: its index count and its indices into the expanded vertex buffer. */
  datatype Face = Face(numIndices: nat, indices: seq<nat>)

  const EMPTY_FACE: Face := Face(0, [])

  datatype Light = Light(
    name: string,
    sourceType: nat,
    innerCone: Decimal,
    outerCone: Decimal,
    diffuse: Vec3,
    position: Vec3,
    direction: Vec3)

  datatype Node = Node(name: string, meshes: seq<nat>)

  const ROOT_NODE_NAME: string := "<GEORoot>"

  /** The fixed number of face slots allocated for every mesh. */
  const MAX_FACES: nat := 32365 * 3

  /** The face slots of a new mesh, all empty. */
  const FRESH_FACES: seq<Face> := seq(MAX_FACES, _ => EMPTY_FACE)

  /** The importer's extension list, searched by CanRead. */
  const FILE_EXTENSIONS: CString := "3DG geo GouR"

  /** The size of the buffer the lamp names are printed into. */
  const LAMP_NAME_BUFFER: nat := 16

  // =====================================================================
  // Header

  predicate IsSignatureLine(l: Line)
  {
    At(l, 0) == 'G' || (At(l, 0) == '3' && At(l, 1) == 'D')
  }

  /** The header loop consumes signature lines and '#' comment lines. */
  predicate IsHeaderLine(l: Line)
  {
    IsSignatureLine(l) || At(l, 0) == '#'
  }

  /**
   * One header line's effect on the flavour (the switch on the 4th
   * character): it fails exactly on an unrecognised signature, and otherwise
   * keeps the flavour unless the line selects one.
   */
  function SelectFlavour(flav: Option<Flavor>, l: Line): (r: Result<Option<Flavor>>)
    ensures r.Failure? <==> !Recognised(l)
    ensures r.Failure? ==> r.error == UnknownFileVersion
    ensures r.Success? ==> r.value == if SelectedBy(l).Some? then SelectedBy(l) else flav
  {
    if !IsSignatureLine(l) then Success(flav)
    else match At(l, 3)
      case '1' => Success(Some(MeshWithColouredFaces))
      case '2' => Success(Some(Lamp))
      case '3' => Success(flav)
      case 'R' => Success(Some(MeshWithColouredVertices))
      case _ => Failure(UnknownFileVersion)
  }

  /** Declarative counterparts of the switch: which lines are accepted, and what each selects. */
  predicate Recognised(l: Line)
  {
    !IsSignatureLine(l) || At(l, 3) in {'1', '2', '3', 'R'}
  }

  function SelectedBy(l: Line): Option<Flavor>
  {
    if IsSignatureLine(l) && At(l, 3) == '1' then Some(MeshWithColouredFaces)
    else if IsSignatureLine(l) && At(l, 3) == '2' then Some(Lamp)
    else if IsSignatureLine(l) && At(l, 3) == 'R' then Some(MeshWithColouredVertices)
    else None
  }

  /** The flavour chosen by the last selecting line among ls, if any. */
  function LastSelected(ls: seq<Line>): Option<Flavor>
  {
    if |ls| == 0 then None
    else if SelectedBy(ls[|ls| - 1]).Some? then SelectedBy(ls[|ls| - 1])
    else LastSelected(ls[..|ls| - 1])
  }

  /**
   * The outcome of the header loop over a stream of lines starting at index k:
   * the flavour afterwards, the index of the last line examined, and either
   * the element count or the error that ended the import.
   */
  datatype HeaderScan = HeaderScan(flav: Option<Flavor>, last: nat, count: Result<nat>)

  /**
   * The header loop, stopping at the end of the input (where the loop as
   * written never ends, see HeaderLoopStep).
   */
  function ScanHeader(ls: seq<Line>, flav: Option<Flavor>, k: nat): (h: HeaderScan)
    requires k < |ls|
    ensures k <= h.last < |ls|
    decreases |ls| - k
  {
    var l := ls[k];
    if !IsHeaderLine(l) then HeaderScan(flav, k, Success(LeadingNumber(l)))
    else match SelectFlavour(flav, l)
      case Failure(e) => HeaderScan(flav, k, Failure(e))
      case Success(f) =>
        if k + 1 < |ls| then ScanHeader(ls, f, k + 1)
        else HeaderScan(f, k, Failure(MissingElementCount))
  }

  /**
   * The lines the header loop sees: the input's lines, or, for an input
   * without any line, the line the buffer still holds (GetNextLine then leaves
   * it unchanged).
   */
  function LineStream(text: seq<Line>, current: Line): (ls: seq<Line>)
    ensures |ls| > 0
  {
    if |text| > 0 then text else [current]
  }

  /** Where the cursor stands after the header: just past the element-count line. */
  function AfterHeader(text: seq<Line>, h: HeaderScan): nat
  {
    if |text| > 0 then h.last + 1 else 0
  }

  /**
   * What the line buffer holds once GetNextLine has handed out the lines from
   * start up to cursor: the last of them, or l0, the line it held before, when
   * there were none.
   */
  function BufferLine(text: seq<Line>, start: nat, cursor: nat, l0: Line): Line
    requires start <= cursor <= |text|
  {
    if start < cursor then text[cursor - 1] else l0
  }

  // =====================================================================
  // Colour tokens

  /** How the colour token after sz was read: by strtoul10, by the hexadecimal reparse, or not at all. */
  datatype ColourToken = DecimalToken(value: nat) | HexToken(value: nat) | Unreadable

  datatype ColourRead = ColourRead(token: ColourToken, end: nat)

  /**
   * The hexadecimal reparse starts one character before where strtoul10
   * stopped; that position must lie on the line.
   */
  predicate ColourTokenReadable(l: Line, sz: nat)
    requires sz <= |l|
  {
    Strtoul10(l, SkipSpaces(l, sz)).end >= 1
  }

  /**
   * The colour token of InternReadColor: a nonzero decimal value, else a
   * nonzero base-16 value read from one character earlier, else nothing. The
   * position left behind is where the decimal reader stopped, or one before
   * it after a reparse (the hexadecimal reader never moves it).
   */
  function ReadColourToken(l: Line, sz: nat): (r: ColourRead)
    requires sz <= |l| && ColourTokenReadable(l, sz)
    ensures r.end <= |l|
    ensures r.token.DecimalToken? <==> Strtoul10(l, SkipSpaces(l, sz)).value != 0
    ensures r.token.DecimalToken? || r.token.HexToken? ==> r.token.value != 0
    ensures r.token.HexToken? ==> r.token.value < UINT32_MODULUS
  {
    var d := Strtoul10(l, SkipSpaces(l, sz));
    if d.value != 0 then ColourRead(DecimalToken(d.value), d.end)
    else
      var h := HexStrToUl10(l, d.end - 1);
      if h != 0 then ColourRead(HexToken(h), d.end - 1) else ColourRead(Unreadable, d.end - 1)
  }

  /** The 24-bit number whose bytes are a colour's channels. */
  function PackRgb(r: nat, g: nat, b: nat): nat
  {
    r * 0x1_0000 + g * 0x100 + b
  }

  /**
   * LookupColor: in hexadecimal mode the value is unpacked as 0xRRGGBB,
   * otherwise its low nibble picks a table entry (the bits 0xF0 only log).
   */
  function LookupColor(colourIndex: nat, rgbH: bool): (c: Colour)
    ensures c != Unset
    ensures c.Rgb? <==> rgbH
  {
    if rgbH then
      Rgb((colourIndex / 0x1_0000) % 0x100, (colourIndex / 0x100) % 0x100, colourIndex % 0x100)
    else
      TableEntry(colourIndex % 0x10)
  }

  /** The three bytes of the low 24 bits of x pack back into those 24 bits. */
  lemma UnpackedRgbPacks(x: nat)
    ensures PackRgb((x / 0x1_0000) % 0x100, (x / 0x100) % 0x100, x % 0x100) == x % 0x100_0000
  {
    var q1, b := x / 0x100, x % 0x100;
    var q2, g := q1 / 0x100, q1 % 0x100;
    var q3, r := q2 / 0x100, q2 % 0x100;
    DivModUnique(x, 0x1_0000, q2, 0x100 * g + b);
    DivModUnique(x, 0x100_0000, q3, 0x1_0000 * r + 0x100 * g + b);
  }

  /** Quotient and remainder are the k and r of any z == k * m + r with 0 <= r < m. */
  lemma DivModUnique(z: int, m: int, k: int, r: int)
    requires m > 0 && z == k * m + r && 0 <= r < m
    ensures z / m == k && z % m == r
  {
    var d := z / m - k;
    assert m * d == r - z % m;
  }

  /** The colour a token resolves to; an unreadable token writes nothing. */
  function TokenColour(t: ColourToken): (c: Option<Colour>)
    ensures c.None? <==> t.Unreadable?
    ensures c.Some? ==> c.value != Unset && (c.value.Rgb? <==> t.HexToken?)
  {
    match t
    case DecimalToken(v) => Some(LookupColor(v, false))
    case HexToken(v) => Some(LookupColor(v, true))
    case Unreadable => None
  }

  /** The sticky mode flag after a token: set by the path that succeeded, kept when both fail. */
  function TokenMode(t: ColourToken, rgbH: bool): bool
  {
    match t
    case DecimalToken(_) => false
    case HexToken(_) => true
    case Unreadable => rgbH
  }

  /** tempColors and the sticky rgbH flag, the state every colour token updates. */
  datatype ColourTable = ColourTable(entries: seq<Colour>, rgbH: bool)

  /** The colour a token leaves in an entry that held c: a readable token overwrites it, an unreadable one keeps it. */
  function ColourOr(t: ColourToken, c: Colour): Colour
  {
    match TokenColour(t)
    case Some(c') => c'
    case None => c
  }

  /** InternReadColor(pos) with the token t: only entry pos and the mode flag can change. */
  function StoreColour(st: ColourTable, pos: nat, t: ColourToken): (st': ColourTable)
    requires pos < |st.entries|
    ensures |st'.entries| == |st.entries|
    ensures st'.entries[pos] == ColourOr(t, st.entries[pos])
    ensures forall k :: 0 <= k < |st.entries| && k != pos ==> st'.entries[k] == st.entries[k]
    ensures st'.rgbH == TokenMode(t, st.rgbH)
  {
    match TokenColour(t)
    case Some(c) => ColourTable(st.entries[pos := c], TokenMode(t, st.rgbH))
    case None => st
  }

  /** std::vector::resize: keeps the first n elements and pads with default values. */
  function Resize<T>(s: seq<T>, n: nat, default: T): (r: seq<T>)
    ensures |r| == n
    ensures forall k :: 0 <= k < n && k < |s| ==> r[k] == s[k]
    ensures forall k :: |s| <= k < n ==> r[k] == default
  {
    if n <= |s| then s[..n] else s + seq(n - |s|, _ => default)
  }

  // =====================================================================
  // Vertex lines

  datatype VertexScan = VertexScan(position: Vec3, zStart: nat, end: nat)

  /** x, y and z read one after another, separated by blanks; z starts at zStart and stops at end. */
  function ParseVertex(l: Line): (v: VertexScan)
    ensures v.zStart <= v.end <= |l|
  {
    var x := ReadReal(l, 0);
    var y := ReadReal(l, SkipSpaces(l, x.end));
    var z := ReadReal(l, SkipSpaces(l, y.end));
    VertexScan(Vec3(x.value, y.value, z.value), SkipSpaces(l, y.end), z.end)
  }

  /** The colour token after the position of a vertex line can be read without stepping before the line. */
  predicate VertexColourReadable(l: Line)
  {
    ColourTokenReadable(l, ParseVertex(l).end)
  }

  /** Every vertex line of the coloured-vertices flavour has a readable colour token. */
  predicate VertexColoursReadable(vs: seq<Line>)
  {
    forall i {:trigger VertexColourReadable(vs[i])} :: 0 <= i < |vs| ==> VertexColourReadable(vs[i])
  }

  function VertexToken(l: Line): ColourToken
    requires VertexColourReadable(l)
  {
    ReadColourToken(l, ParseVertex(l).end).token
  }

  /** The sticky mode flag after the colour tokens ts, read in order, starting from rgbH. */
  function TokensMode(rgbH: bool, ts: seq<ColourToken>): bool
  {
    if |ts| == 0 then rgbH
    else TokenMode(ts[|ts| - 1], TokensMode(rgbH, ts[..|ts| - 1]))
  }

  /** The positions of the vertex lines vs, in order. */
  function VertexPositions(vs: seq<Line>): (r: seq<Vec3>)
    ensures |r| == |vs|
  {
    if |vs| == 0 then [] else [ParseVertex(vs[0]).position] + VertexPositions(vs[1..])
  }

  /** The colour tokens of the vertex lines vs, in order. */
  function VertexTokens(vs: seq<Line>): (r: seq<ColourToken>)
    requires VertexColoursReadable(vs)
    ensures |r| == |vs|
  {
    if |vs| == 0 then [] else [VertexToken(vs[0])] + VertexTokens(vs[1..])
  }

  /** The vertex loop reads count lines, or fewer when the input ends first. */
  function VertexLinesRead(text: seq<Line>, start: nat, count: nat): (n: nat)
    requires start <= |text|
    ensures n <= count && start + n <= |text|
    ensures n < count ==> start + n == |text|
  {
    if count <= |text| - start then count else |text| - start
  }

  /** The lines a vertex loop for count vertices reads from line start on. */
  function VertexBlock(text: seq<Line>, start: nat, count: nat): (vs: seq<Line>)
    requires start <= |text|
    ensures |vs| == VertexLinesRead(text, start, count)
    ensures forall k :: 0 <= k < |vs| ==> vs[k] == text[start + k]
  {
    text[start..start + VertexLinesRead(text, start, count)]
  }

  // =====================================================================
  // Face lines

  datatype IndexScan = IndexScan(raws: seq<nat>, end: nat)

  /** n raw vertex indices, each after optional blanks. */
  function ReadIndices(l: Line, start: nat, n: nat): (r: IndexScan)
    requires start <= |l|
    ensures |r.raws| == n && start <= r.end <= |l|
  {
    if n == 0 then IndexScan([], start)
    else
      var prev := ReadIndices(l, start, n - 1);
      var v := Strtoul10(l, SkipSpaces(l, prev.end));
      IndexScan(prev.raws + [v.value], v.end)
  }

  /** A face line with a nonzero index count: the count, the raw indices and the colour token after them. */
  datatype FaceLine = FaceLine(count: nat, raws: seq<nat>, colour: ColourToken)

  function ParseFace(l: Line): (f: FaceLine)
    requires LeadingNumber(l) != 0
    ensures f.count == LeadingNumber(l) && |f.raws| == f.count && f.count >= 1
  {
    var c := Strtoul10(l, 0);
    var r := ReadIndices(l, c.end, c.value);
    FaceLine(c.value, r.raws, ReadColourToken(l, r.end).token)
  }

  /** How many of the first n lines of a block count: those whose leading number is nonzero. */
  function CountedBefore(b: seq<Line>, n: nat): (c: nat)
    requires n <= |b|
    ensures c <= n
  {
    if n == 0 then 0 else CountedBefore(b, n - 1) + (if LeadingNumber(b[n - 1]) != 0 then 1 else 0)
  }

  /** The faces of a block: the counted lines, parsed, in order. */
  function ParsedFaces(b: seq<Line>): (fs: seq<FaceLine>)
    ensures |fs| == CountedBefore(b, |b|)
  {
    FacesBefore(b, |b|)
  }

  /** The faces of the first n lines of a block. */
  function FacesBefore(b: seq<Line>, n: nat): (fs: seq<FaceLine>)
    requires n <= |b|
    ensures |fs| == CountedBefore(b, n)
  {
    if n == 0 then []
    else FacesBefore(b, n - 1) + (if LeadingNumber(b[n - 1]) != 0 then [ParseFace(b[n - 1])] else [])
  }

  /** The total number of vertex uses: the sum of the faces' index counts. */
  function TotalIndices(fs: seq<FaceLine>): nat
  {
    IndicesBefore(fs, |fs|)
  }

  /**
   * The 32-bit vertex counter of the sizing pass either holds the vertex
   * total, or wraps to exactly 0, in which case the import fails with no
   * valid faces before any vertex is allocated. A total that wraps to any
   * other value would allocate too few vertices for the fill pass.
   */
  predicate VertexTotalFits(fs: seq<FaceLine>)
  {
    TotalIndices(fs) < UINT32_MODULUS || TotalIndices(fs) % UINT32_MODULUS == 0
  }

  /** The index counts of the first n faces, summed: where face n's expanded vertices start. */
  function IndicesBefore(fs: seq<FaceLine>, n: nat): nat
    requires n <= |fs|
  {
    if n == 0 then 0 else IndicesBefore(fs, n - 1) + fs[n - 1].count
  }

  function Range(p: nat, n: nat): (r: seq<nat>)
    ensures |r| == n && forall m :: 0 <= m < n ==> r[m] == p + m
  {
    seq(n, m => p + m)
  }

  /** The face records of the output mesh: face k owns the next count_k expanded indices. */
  function FaceRecords(fs: seq<FaceLine>): (r: seq<Face>)
    ensures |r| == |fs|
  {
    RecordsBefore(fs, |fs|)
  }

  /** The face records of the first n faces. */
  function RecordsBefore(fs: seq<FaceLine>, n: nat): (r: seq<Face>)
    requires n <= |fs|
    ensures |r| == n
  {
    if n == 0 then []
    else RecordsBefore(fs, n - 1) + [Face(fs[n - 1].count, Range(IndicesBefore(fs, n - 1), fs[n - 1].count))]
  }

  /** The raw indices of all faces, in order: the raw vertex behind each expanded vertex. */
  function ExpandedRaws(fs: seq<FaceLine>): seq<nat>
  {
    RawsBefore(fs, |fs|)
  }

  /** The raw indices of the first n faces, in order. */
  function RawsBefore(fs: seq<FaceLine>, n: nat): seq<nat>
    requires n <= |fs|
  {
    if n == 0 then [] else RawsBefore(fs, n - 1) + fs[n - 1].raws
  }

  predicate RawsBelow(f: FaceLine, n: nat)
  {
    forall m :: 0 <= m < |f.raws| ==> f.raws[m] < n
  }

  predicate AllRawsBelow(fs: seq<FaceLine>, n: nat)
  {
    forall k :: 0 <= k < |fs| ==> RawsBelow(fs[k], n)
  }

  /** The last raw index of every face is below n (tempColors' size in the coloured-faces flavour). */
  predicate LastRawsBelow(fs: seq<FaceLine>, n: nat)
  {
    forall k :: 0 <= k < |fs| ==> |fs[k].raws| > 0 && fs[k].raws[|fs[k].raws| - 1] < n
  }

  /** The last raw index of a face, where its colour token is stored. */
  function LastRaw(f: FaceLine): nat
    requires |f.raws| > 0
  {
    f.raws[|f.raws| - 1]
  }

  /**
   * The coloured-faces fill: each face stores its colour token at its last raw
   * index, then every one of its expanded vertices takes the colour found
   * there. Returns the final colour table and the expanded colours.
   */
  function FaceColours(st: ColourTable, fs: seq<FaceLine>): (r: (ColourTable, seq<Colour>))
    requires LastRawsBelow(fs, |st.entries|)
    ensures |r.0.entries| == |st.entries|
  {
    ColoursBefore(st, fs, |fs|)
  }

  /** The coloured-faces fill over the first n faces. */
  function ColoursBefore(st: ColourTable, fs: seq<FaceLine>, n: nat): (r: (ColourTable, seq<Colour>))
    requires n <= |fs| && LastRawsBelow(fs, |st.entries|)
    ensures |r.0.entries| == |st.entries|
  {
    if n == 0 then (st, [])
    else
      var prev := ColoursBefore(st, fs, n - 1);
      var f := fs[n - 1];
      var st' := StoreColour(prev.0, LastRaw(f), f.colour);
      (st', prev.1 + seq(f.count, _ => st'.entries[LastRaw(f)]))
  }

  /** The sizing pass writes one face slot per line; every slot it reaches lies in the face array. */
  predicate SizingInBounds(b: seq<Line>, slots: nat): (ok: bool)
    ensures |b| <= slots ==> ok
  {
    |b| == 0 || CountedBefore(b, |b| - 1) < slots
  }

  /** Index just past the last counted line (0 when there is none): where the fill pass stops. */
  function EndOfCounted(b: seq<Line>): (e: nat)
    ensures e <= |b|
  {
    EndBefore(b, |b|)
  }

  /** Index just past the last counted line among the first n lines of a block (0 when there is none). */
  function EndBefore(b: seq<Line>, n: nat): (e: nat)
    requires n <= |b|
    ensures e <= n
  {
    if n == 0 then 0
    else if LeadingNumber(b[n - 1]) != 0 then n
    else EndBefore(b, n - 1)
  }

  // =====================================================================
  // Lamp records

  /** "Lamp" + the 1-based ordinal as %04d + the type as %04X. */
  function LampName(ordinal: nat, sourceType: nat): (name: string)
    ensures |name| >= 12 && name[..4] == "Lamp"
  {
    "Lamp" + PadZeros(FormatDecimal(ordinal), 4) + PadZeros(FormatHex(sourceType), 4)
  }

  /** The width of a number printed with a zero-padded field of four. */
  function FieldWidth(digits: nat): nat
  {
    if digits >= 4 then digits else 4
  }

  /** The lamp name of this ordinal and type, with its terminator, fits the 16-byte name buffer. */
  predicate LampNameFits(ordinal: nat, sourceType: nat)
  {
    4 + FieldWidth(DecimalDigitCount(ordinal)) + FieldWidth(HexDigitCount(sourceType)) < LAMP_NAME_BUFFER
  }

  /** Line t of the record starting at c; past the end of the input the buffer keeps the last line. */
  function RecordLine(text: seq<Line>, c: nat, t: nat): (l: Line)
    requires c < |text|
    ensures l == text[RecordCursor(text, c, t) - 1]
  {
    if c + t < |text| then text[c + t] else text[|text| - 1]
  }

  /** The cursor once line t of the record starting at line c has been asked for: past the end of the input it stays there. */
  function RecordCursor(text: seq<Line>, c: nat, t: nat): (k: nat)
    ensures k <= |text| && k <= c + t + 1
    ensures c + t < |text| ==> k == c + t + 1
  {
    if c + t + 1 < |text| then c + t + 1 else |text|
  }

  function ReadTriple(l: Line): Vec3
  {
    ParseVertex(l).position
  }

  /**
   * The light of the record starting at line c, numbered ordinal, once its
   * lines 0 to t have been read: line 0 gives the type, and with it the name
   * of the light, line 1 the inner
   * and outer cone angles, lines 2, 3 and 4 the colour, the position and the
   * direction. Fields not read yet are zero.
   */
  function LampAfter(text: seq<Line>, c: nat, ordinal: nat, t: nat): Light
    requires c < |text| && t < 5
    decreases t
  {
    if t == 0 then
      Light(LampName(ordinal, LeadingNumber(text[c])), LeadingNumber(text[c]), Decimal(0, 0), Decimal(0, 0), ZERO_VECTOR, ZERO_VECTOR, ZERO_VECTOR)
    else
      var l := LampAfter(text, c, ordinal, t - 1);
      var line := RecordLine(text, c, t);
      if t == 1 then
        var inner := ReadReal(line, 0);
        var outer := ReadReal(line, SkipSpaces(line, inner.end));
        l.(innerCone := inner.value, outerCone := outer.value)
      else if t == 2 then l.(diffuse := ReadTriple(line))
      else if t == 3 then l.(position := ReadTriple(line))
      else l.(direction := ReadTriple(line))
  }

  /** The light described by the five-line record starting at line c, named after its ordinal and its type. */
  function ParseLamp(text: seq<Line>, c: nat, ordinal: nat): (light: Light)
    requires c < |text|
    ensures light.name == LampName(ordinal, LeadingNumber(text[c])) && light.sourceType == LeadingNumber(text[c])
  {
    LampAfterFields(text, c, ordinal, 4);
    LampAfter(text, c, ordinal, 4)
  }

  /**
   * After lines 0 to t of a record: the name and type come from line 0, each
   * of the colour, position and direction holds its line's triple once that
   * line is read, and is zero before.
   */
  lemma {:induction false} LampAfterFields(text: seq<Line>, c: nat, ordinal: nat, t: nat)
    requires c < |text| && t < 5
    ensures var light := LampAfter(text, c, ordinal, t);
      && light.name == LampName(ordinal, LeadingNumber(text[c])) && light.sourceType == LeadingNumber(text[c])
      && (t < 2 ==> light.diffuse == ZERO_VECTOR)
      && (t < 3 ==> light.position == ZERO_VECTOR)
      && (t < 4 ==> light.direction == ZERO_VECTOR)
      && (t >= 2 ==> light.diffuse == ReadTriple(RecordLine(text, c, 2)))
      && (t >= 3 ==> light.position == ReadTriple(RecordLine(text, c, 3)))
      && (t == 4 ==> light.direction == ReadTriple(RecordLine(text, c, 4)))
    decreases t
  {
    if t > 0 {
      LampAfterFields(text, c, ordinal, t - 1);
    }
  }

  /** The number of records the lamp loop reads from line `start` on: one per started group of five lines. */
  function LampRecordCount(text: seq<Line>, start: nat): (r: nat)
    ensures r == 0 <==> start >= |text|
    ensures r > 0 ==> start + 5 * (r - 1) < |text| <= start + 5 * r
  {
    if start < |text| then (|text| - start + 4) / 5 else 0
  }

  /** The lights of the first n records from line start on, in file order, numbered from 1. */
  function Lights(text: seq<Line>, start: nat, n: nat): (r: seq<Light>)
    requires n == 0 || start + 5 * (n - 1) < |text|
    ensures |r| == n
  {
    if n == 0 then [] else Lights(text, start, n - 1) + [ParseLamp(text, start + 5 * (n - 1), n)]
  }

  /**
   * Every lamp name of the records from line start on, numbered from
   * ordinal, fits the 16-byte name buffer with its terminator.
   */
  predicate LampNamesFit(text: seq<Line>, start: nat, ordinal: nat)
    decreases |text| - start
  {
    start < |text| ==>
      && LampNameFits(ordinal, LeadingNumber(text[start]))
      && LampNamesFit(text, start + 5, ordinal + 1)
  }

  // =====================================================================
  // The whole import

  /**
   * What the readers of the body demand of the lines from start on, for the
   * element count n and the flavour flav (each conjunct excludes an
   * out-of-bounds access of the importer): every face slot the sizing pass
   * writes lies in the fixed face array, the 32-bit vertex counter holds the
   * vertex total or wraps to exactly 0, every raw index names a stored position, in the coloured-faces
   * flavour every face's last raw index names a face-sized tempColors entry,
   * in the coloured-vertices flavour the hexadecimal colour reparse stays on
   * the line, and every lamp record has a slot and a name that fits its
   * buffer.
   */
  ghost predicate BodyDefined(text: seq<Line>, start: nat, n: nat, flav: Option<Flavor>)
  {
    start <= |text| &&
    var vertexEnd := start + VertexLinesRead(text, start, n);
    var fs := ParsedFaces(text[vertexEnd..]);
    (flav == Some(MeshWithColouredFaces) ==>
      && SizingInBounds(text[vertexEnd..], MAX_FACES)
      && VertexTotalFits(fs)
      && AllRawsBelow(fs, n)
      && LastRawsBelow(fs, |fs|))
    && (flav == Some(MeshWithColouredVertices) ==>
      && VertexColoursReadable(VertexBlock(text, start, n))
      && SizingInBounds(text[vertexEnd..], MAX_FACES)
      && VertexTotalFits(fs)
      && AllRawsBelow(fs, n))
    && (flav == Some(Lamp) ==>
      LampRecordCount(text, start) <= n && LampNamesFit(text, start, 1))
  }

  /**
   * What the import demands of a file for its behaviour to be defined: when
   * the header gives an element count, what the body's readers demand of the
   * lines after it.
   */
  ghost predicate ImportDefined(text: seq<Line>, flav: Option<Flavor>, current: Line)
  {
    var h := ScanHeader(LineStream(text, current), flav, 0);
    h.count.Success? ==> BodyDefined(text, AfterHeader(text, h), h.count.value, h.flav)
  }
}
