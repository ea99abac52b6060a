// The Videoscape GEO importer: an object whose fields persist across
// imports (flavour, colour mode, line buffer, read position, temporary
// position and colour stores) and that fills an output scene while stepping
// through the lines of a file. The file's lines are a local of the import,
// passed to every reader; the cursor into them is a field. Every reader is
// proved against the pure descriptions in GeoFormat.
module GeoLoader {
  import opened ParsingUtils
  import opened GeoHelper
  import opened GeoFormat
  import opened GeoProperties

  // ---------------------------------------------------------------------
  // Bookkeeping for the readers' loops. A loop carries the value every line
  // of its block will give as a ghost sequence; the link to the line itself
  // is only opened where that line is parsed.

  /** ps holds the position of every vertex line of vs. */
  ghost predicate PositionsOf(vs: seq<Line>, ps: seq<Vec3>)
  {
    |ps| == |vs| &&
    forall k {:trigger ParseVertex(vs[k])} :: 0 <= k < |vs| ==> ps[k] == ParseVertex(vs[k]).position
  }

  /** ts holds the colour token of every vertex line of vs. */
  ghost predicate TokensOf(vs: seq<Line>, ts: seq<ColourToken>)
  {
    |ts| == |vs| && VertexColoursReadable(vs) &&
    forall k {:trigger VertexToken(vs[k])} :: 0 <= k < |vs| ==> ts[k] == VertexToken(vs[k])
  }

  lemma PositionsOfBlock(vs: seq<Line>) returns (ps: seq<Vec3>)
    ensures PositionsOf(vs, ps)
  {
    ps := seq(|vs|, k requires 0 <= k < |vs| => ParseVertex(vs[k]).position);
  }

  lemma TokensOfBlock(vs: seq<Line>) returns (ts: seq<ColourToken>)
    requires VertexColoursReadable(vs)
    ensures TokensOf(vs, ts)
  {
    ts := seq(|vs|, k requires 0 <= k < |vs| => VertexToken(vs[k]));
  }

  lemma {:induction false} PositionsOfArePositions(vs: seq<Line>, ps: seq<Vec3>)
    requires PositionsOf(vs, ps)
    ensures ps == VertexPositions(vs)
  {
    forall k | 0 <= k < |vs|
      ensures ps[k] == VertexPositions(vs)[k]
    {
      VertexPositionsAt(vs, k);
      assert ps[k] == ParseVertex(vs[k]).position;
    }
  }

  lemma {:induction false} TokensOfAreVertexTokens(vs: seq<Line>, ts: seq<ColourToken>)
    requires TokensOf(vs, ts)
    ensures ts == VertexTokens(vs)
  {
    forall k | 0 <= k < |vs|
      ensures ts[k] == VertexTokens(vs)[k]
    {
      VertexTokensAt(vs, k);
      assert ts[k] == VertexToken(vs[k]);
    }
  }

  /** fs holds the faces of the counted lines of the face block b. */
  ghost predicate FacesOf(b: seq<Line>, fs: seq<FaceLine>)
  {
    fs == ParsedFaces(b)
  }

  /** ns holds the leading number of every line of b. */
  ghost predicate NumbersOf(b: seq<Line>, ns: seq<nat>)
  {
    |ns| == |b| && forall k {:trigger LeadingNumber(b[k])} :: 0 <= k < |b| ==> ns[k] == LeadingNumber(b[k])
  }

  /** ci[k] is the number of counted lines among the first k lines of b. */
  ghost predicate CountsBefore(b: seq<Line>, ci: seq<nat>)
  {
    |ci| == |b| + 1 && forall k :: 0 <= k <= |b| ==> ci[k] == CountedBefore(b, k)
  }

  /** The bookkeeping of a face loop over the block b. */
  ghost predicate FaceBlock(b: seq<Line>, fs: seq<FaceLine>, ns: seq<nat>, ci: seq<nat>)
  {
    FacesOf(b, fs) && NumbersOf(b, ns) && CountsBefore(b, ci)
  }

  lemma FaceBlockOf(b: seq<Line>) returns (fs: seq<FaceLine>, ns: seq<nat>, ci: seq<nat>)
    ensures FaceBlock(b, fs, ns, ci) && fs == ParsedFaces(b)
    ensures ci[0] == 0 && ci[|b|] == |fs|
  {
    fs := ParsedFaces(b);
    ns := seq(|b|, k requires 0 <= k < |b| => LeadingNumber(b[k]));
    ci := seq(|b| + 1, k requires 0 <= k <= |b| => CountedBefore(b, k));
  }

  /**
   * Reading line j of the face block b: it counts exactly when its leading
   * number is nonzero, and then it is face number ci[j], which fits below the
   * slots the sizing pass uses for the lines before the last.
   */
  lemma FaceBlockStep(b: seq<Line>, fs: seq<FaceLine>, ns: seq<nat>, ci: seq<nat>, j: nat)
    requires FaceBlock(b, fs, ns, ci) && j < |b|
    ensures ci[j + 1] == ci[j] + (if ns[j] != 0 then 1 else 0)
    ensures ci[j] <= ci[|b| - 1] && ci[j] <= |fs|
    ensures ns[j] != 0 ==> ci[j] < |fs| && fs[ci[j]] == ParseFace(b[j]) && fs[ci[j]].count == ns[j]
  {
    CountedGrow(b, j, |b| - 1);
    CountedGrow(b, j, |b|);
    assert ci[j] == CountedBefore(b, j) && ci[j + 1] == CountedBefore(b, j + 1);
    assert ns[j] == LeadingNumber(b[j]);
    if ns[j] != 0 {
      FacesBeforeAt(b, |b|, j);
    }
  }

  /** The fill passes stop right after the line that completes the faces: at EndOfCounted. */
  lemma FaceBlockStop(b: seq<Line>, fs: seq<FaceLine>, ns: seq<nat>, ci: seq<nat>, j: nat)
    requires FaceBlock(b, fs, ns, ci) && j <= |b| && ci[j] == |fs|
    requires j == 0 || ns[j - 1] != 0
    ensures EndOfCounted(b) == j
  {
    assert ci[j] == CountedBefore(b, j);
    if j > 0 {
      assert ns[j - 1] == LeadingNumber(b[j - 1]);
    }
    EndOfCountedAt(b, |b|, j);
  }

  /**
   * raws holds the raw indices read from l at s0, and ends[k] is where
   * reading the first k of them stops.
   */
  ghost predicate IndicesOf(l: Line, s0: nat, raws: seq<nat>, ends: seq<nat>)
  {
    && s0 <= |l| && |ends| == |raws| + 1 && ends[0] == s0
    && forall k {:trigger ReadIndices(l, s0, k)} :: 0 <= k <= |raws| ==>
         ends[k] == ReadIndices(l, s0, k).end && ReadIndices(l, s0, k).raws == raws[..k]
  }

  lemma IndicesOfLine(l: Line, s0: nat, n: nat) returns (raws: seq<nat>, ends: seq<nat>)
    requires s0 <= |l|
    ensures IndicesOf(l, s0, raws, ends) && raws == ReadIndices(l, s0, n).raws
    ensures ends[0] == s0 && ends[n] == ReadIndices(l, s0, n).end
  {
    raws := ReadIndices(l, s0, n).raws;
    ends := seq(n + 1, k requires 0 <= k <= n => ReadIndices(l, s0, k).end);
    forall k | 0 <= k <= n
      ensures ReadIndices(l, s0, k).raws == raws[..k]
    {
      ReadIndicesPrefix(l, s0, k, n);
    }
    assert raws[..n] == raws;
  }

  /** A counted face line, read as the fill passes read it: its raw indices, where each stops, and its colour token. */
  lemma FaceLineScan(l: Line) returns (raws: seq<nat>, ends: seq<nat>, rd: ColourRead)
    requires LeadingNumber(l) != 0
    ensures IndicesOf(l, Strtoul10(l, 0).end, raws, ends) && |raws| == LeadingNumber(l)
    ensures raws == ParseFace(l).raws
    ensures TokenOf(l, ends[|raws|], rd) && ParseFace(l).colour == rd.token
  {
    FaceColourTokenReadable(l);
    raws, ends := IndicesOfLine(l, Strtoul10(l, 0).end, LeadingNumber(l));
    rd := TokenAt(l, ends[|raws|]);
  }

  /** rd is the colour token InternReadColor reads from l at s. */
  ghost predicate TokenOf(l: Line, s: nat, rd: ColourRead)
  {
    s <= |l| &&
    forall k {:trigger SkipSpaces(l, k)} :: k == s ==> ColourTokenReadable(l, k) && rd == ReadColourToken(l, k)
  }

  lemma TokenAt(l: Line, s: nat) returns (rd: ColourRead)
    requires s <= |l| && ColourTokenReadable(l, s)
    ensures TokenOf(l, s, rd) && rd == ReadColourToken(l, s)
  {
    rd := ReadColourToken(l, s);
  }

  // ---------------------------------------------------------------------
  // The fill passes' plan and state, stated on values

  /**
   * The vertex plan of the faces fs: face k owns the expanded vertices from
   * ti[k] up to ti[k + 1], and er lists the raw index behind each expanded
   * vertex, face by face.
   */
  ghost predicate Offsets(fs: seq<FaceLine>, ti: seq<nat>, er: seq<nat>)
  {
    && |ti| == |fs| + 1 && ti[0] == 0 && ti[|fs|] == |er|
    && (forall k :: 0 <= k <= |fs| ==> ti[k] <= |er|)
    && forall k :: 0 <= k < |fs| ==>
         && |fs[k].raws| == fs[k].count >= 1 && ti[k + 1] == ti[k] + fs[k].count && ti[k] + fs[k].count <= |er|
         && forall q :: ti[k] <= q < ti[k] + fs[k].count ==> er[q] == fs[k].raws[q - ti[k]]
  }

  /**
   * The colour plan of the coloured-faces fill: tabs[k] is the colour table
   * before face k, face k stores its token at its last raw index, and its
   * expanded vertices take the colour found there (fc lists them all).
   */
  ghost predicate ColourPlan(fs: seq<FaceLine>, ti: seq<nat>, tabs: seq<ColourTable>, fc: seq<Colour>)
  {
    && |ti| == |fs| + 1 && |tabs| == |fs| + 1 && |fc| == ti[|fs|]
    && forall k :: 0 <= k < |fs| ==>
         && |fs[k].raws| > 0 && LastRaw(fs[k]) < |tabs[k].entries| && ti[k] + fs[k].count <= |fc|
         && tabs[k + 1] == StoreColour(tabs[k], LastRaw(fs[k]), fs[k].colour)
         && forall q :: ti[k] <= q < ti[k] + fs[k].count ==> fc[q] == ColourOr(fs[k].colour, tabs[k].entries[LastRaw(fs[k])])
  }

  /** The vertex plan of fs agrees with the index total, the face records and the expanded raw indices. */
  lemma OffsetsOf(fs: seq<FaceLine>) returns (ti: seq<nat>)
    requires CountsMatch(fs)
    ensures Offsets(fs, ti, ExpandedRaws(fs)) && ti[|fs|] == TotalIndices(fs)
    ensures forall k :: 0 <= k <= |fs| ==> ti[k] == IndicesBefore(fs, k)
    ensures forall k :: 0 <= k < |fs| ==> FaceRecords(fs)[k] == Face(fs[k].count, Range(ti[k], fs[k].count))
  {
    ti := seq(|fs| + 1, k requires 0 <= k <= |fs| => IndicesBefore(fs, k));
    ExpandedRawsLength(fs, |fs|);
    forall k | 0 <= k < |fs|
      ensures FaceOffsets(fs, k, ti[k])
    {
      FaceOffsetsAt(fs, k);
    }
  }

  /** Face k owns the expanded vertices from t on, in its record and in the expanded raw indices. */
  ghost predicate FaceOffsets(fs: seq<FaceLine>, k: nat, t: nat)
    requires k < |fs|
  {
    && |fs[k].raws| == fs[k].count && t + fs[k].count <= |ExpandedRaws(fs)|
    && FaceRecords(fs)[k] == Face(fs[k].count, Range(t, fs[k].count))
    && forall q :: t <= q < t + fs[k].count ==> ExpandedRaws(fs)[q] == fs[k].raws[q - t]
  }

  /** Face k owns the expanded vertices from the index total of the faces before it on. */
  lemma FaceOffsetsAt(fs: seq<FaceLine>, k: nat)
    requires CountsMatch(fs) && k < |fs|
    ensures FaceOffsets(fs, k, IndicesBefore(fs, k))
  {
    var t := IndicesBefore(fs, k);
    IndicesBeforeGrow(fs, k, |fs|);
    ExpandedRawsLength(fs, |fs|);
    FaceRecordAt(fs, |fs|, k);
    forall q | t <= q < t + fs[k].count
      ensures ExpandedRaws(fs)[q] == fs[k].raws[q - t]
    {
      ExpandedRawsAt(fs, |fs|, k, q - t);
    }
  }

  /** The colour plan of fs agrees with FaceColours: the tables before each face and the colours of all expanded vertices. */
  lemma ColourPlanOf(st0: ColourTable, fs: seq<FaceLine>, ti: seq<nat>) returns (tabs: seq<ColourTable>)
    requires LastRawsBelow(fs, |st0.entries|)
    requires |ti| == |fs| + 1 && forall k :: 0 <= k <= |fs| ==> ti[k] == IndicesBefore(fs, k)
    ensures ColourPlan(fs, ti, tabs, FaceColours(st0, fs).1)
    ensures tabs[0] == st0 && tabs[|fs|] == FaceColours(st0, fs).0
  {
    tabs := TablesBefore(st0, fs);
    FaceColoursLength(st0, fs, |fs|);
    forall k | 0 <= k < |fs|
      ensures |fs[k].raws| > 0 && LastRaw(fs[k]) < |tabs[k].entries|
      ensures ti[k] + fs[k].count <= |FaceColours(st0, fs).1|
      ensures tabs[k + 1] == StoreColour(tabs[k], LastRaw(fs[k]), fs[k].colour)
      ensures forall q :: ti[k] <= q < ti[k] + fs[k].count ==>
        FaceColours(st0, fs).1[q] == ColourOr(fs[k].colour, tabs[k].entries[LastRaw(fs[k])])
    {
      FaceColourPlanAt(st0, fs, k, ti[k], tabs[k], tabs[k + 1]);
    }
  }

  /** The colour tables of the coloured-faces fill before each face of fs, and after the last. */
  ghost function TablesBefore(st0: ColourTable, fs: seq<FaceLine>): (tabs: seq<ColourTable>)
    requires LastRawsBelow(fs, |st0.entries|)
    ensures |tabs| == |fs| + 1
    ensures forall k :: 0 <= k <= |fs| ==> tabs[k] == ColoursBefore(st0, fs, k).0
  {
    seq(|fs| + 1, k requires 0 <= k <= |fs| => ColoursBefore(st0, fs, k).0)
  }

  /** Face k of the coloured-faces fill, read after the table t0 of the faces before it: it leaves t1, and its vertices' colours. */
  lemma FaceColourPlanAt(st0: ColourTable, fs: seq<FaceLine>, k: nat, t: nat, t0: ColourTable, t1: ColourTable)
    requires LastRawsBelow(fs, |st0.entries|) && k < |fs|
    requires t == IndicesBefore(fs, k) && t0 == ColoursBefore(st0, fs, k).0 && t1 == ColoursBefore(st0, fs, k + 1).0
    ensures |fs[k].raws| > 0 && LastRaw(fs[k]) < |t0.entries| && t + fs[k].count <= |FaceColours(st0, fs).1|
    ensures t1 == StoreColour(t0, LastRaw(fs[k]), fs[k].colour)
    ensures forall q :: t <= q < t + fs[k].count ==>
      FaceColours(st0, fs).1[q] == ColourOr(fs[k].colour, t0.entries[LastRaw(fs[k])])
  {
    FaceColoursLength(st0, fs, |fs|);
    IndicesBeforeGrow(fs, k, |fs|);
    forall q | t <= q < t + fs[k].count
      ensures FaceColours(st0, fs).1[q] == ColourOr(fs[k].colour, t0.entries[LastRaw(fs[k])])
    {
      FaceColoursAt(st0, fs, |fs|, k, q - t);
    }
  }

  /** The first i face slots hold the records of the plan; the other slots still hold faces0. */
  ghost predicate FacesFilled(fs: seq<FaceLine>, ti: seq<nat>, faces0: seq<Face>, faces: seq<Face>, i: nat)
  {
    && i <= |fs| <= |faces| == |faces0| && |ti| == |fs| + 1
    && (forall k :: 0 <= k < i ==> faces[k] == Face(fs[k].count, Range(ti[k], fs[k].count)))
    && (forall k :: i <= k < |faces| ==> faces[k] == faces0[k])
  }

  /** The face slots faces hold recs in front and, behind them, what faces0 held. */
  ghost predicate SlotsHold(faces: seq<Face>, recs: seq<Face>, faces0: seq<Face>)
  {
    && |faces| == |faces0| && |recs| <= |faces0|
    && (forall k :: 0 <= k < |recs| ==> faces[k] == recs[k])
    && (forall k :: |recs| <= k < |faces| ==> faces[k] == faces0[k])
  }

  /** Every face slot from i on is empty. */
  ghost predicate EmptyFrom(faces: seq<Face>, i: nat)
  {
    forall k :: i <= k < |faces| ==> faces[k] == EMPTY_FACE
  }

  /** The first p expanded vertices hold the positions of their raw indices (er lists those). */
  ghost predicate VerticesFilled(er: seq<nat>, positions: seq<Vec3>, verts: seq<Vec3>, p: nat)
  {
    && p <= |er| <= |verts|
    && forall q :: 0 <= q < p ==> er[q] < |positions| && verts[q] == positions[er[q]]
  }

  /** The first p expanded vertices hold their colours in fc. */
  ghost predicate ColoursFilled(fc: seq<Colour>, cols: seq<Colour>, p: nat)
  {
    |cols| == |fc| && p <= |fc| && forall q :: 0 <= q < p ==> cols[q] == fc[q]
  }

  /** The plans of the coloured-faces fill over the face block b, starting from the colour table st0. */
  lemma ColouredFacePlan(b: seq<Line>, st0: ColourTable)
      returns (fs: seq<FaceLine>, ns: seq<nat>, ci: seq<nat>, ti: seq<nat>, er: seq<nat>,
               tabs: seq<ColourTable>, fc: seq<Colour>)
    requires LastRawsBelow(ParsedFaces(b), |st0.entries|)
    ensures fs == ParsedFaces(b) && FaceBlock(b, fs, ns, ci) && ci[0] == 0 && ci[|b|] == |fs|
    ensures er == ExpandedRaws(fs) && |er| == TotalIndices(fs) && fc == FaceColours(st0, fs).1
    ensures Offsets(fs, ti, er) && ColourPlan(fs, ti, tabs, fc)
    ensures tabs[0] == st0 && tabs[|fs|] == FaceColours(st0, fs).0
    ensures forall k :: 0 <= k < |fs| ==> FaceRecords(fs)[k] == Face(fs[k].count, Range(ti[k], fs[k].count))
  {
    fs, ns, ci := FaceBlockOf(b);
    ParsedFacesCountsMatch(b, |b|);
    er := ExpandedRaws(fs);
    ExpandedRawsLength(fs, |fs|);
    ti := OffsetsOf(fs);
    FaceColoursLength(st0, fs, |fs|);
    tabs := ColourPlanOf(st0, fs, ti);
    fc := FaceColours(st0, fs).1;
  }

  /**
   * The end of the coloured-faces fill: the face slots hold the face records,
   * every expanded vertex its position, and the colour channel, when there is
   * a face, the colours of FaceColours.
   */
  lemma ColouredFillDone(fs: seq<FaceLine>, ti: seq<nat>, er: seq<nat>, tabs: seq<ColourTable>, fc: seq<Colour>,
                         faces0: seq<Face>, faces: seq<Face>, positions: seq<Vec3>, verts: seq<Vec3>, cols: seq<Colour>)
    requires Offsets(fs, ti, er) && ColourPlan(fs, ti, tabs, fc)
    requires forall k :: 0 <= k < |fs| ==> FaceRecords(fs)[k] == Face(fs[k].count, Range(ti[k], fs[k].count))
    requires FacesFilled(fs, ti, faces0, faces, |fs|) && VerticesFilled(er, positions, verts, |er|)
    requires |fs| > 0 ==> ColoursFilled(fc, cols, |er|)
    ensures SlotsHold(faces, FaceRecords(fs), faces0)
    ensures forall q :: 0 <= q < |er| ==> er[q] < |positions| && verts[q] == positions[er[q]]
    ensures |fs| > 0 ==> cols == fc
  {
    FacesFilledComplete(fs, ti, faces0, faces);
  }

  /** Once every face is written, the face slots hold the face records and the rest is untouched. */
  lemma FacesFilledComplete(fs: seq<FaceLine>, ti: seq<nat>, faces0: seq<Face>, faces: seq<Face>)
    requires FacesFilled(fs, ti, faces0, faces, |fs|)
    requires forall k :: 0 <= k < |fs| ==> FaceRecords(fs)[k] == Face(fs[k].count, Range(ti[k], fs[k].count))
    ensures SlotsHold(faces, FaceRecords(fs), faces0)
  {
  }

  /** Writing face i: its slot gets its record, its expanded vertices the positions of its raw indices. */
  lemma FaceFilledStep(fs: seq<FaceLine>, ti: seq<nat>, er: seq<nat>, faces0: seq<Face>, faces: seq<Face>,
                       faces': seq<Face>, positions: seq<Vec3>, verts: seq<Vec3>, verts': seq<Vec3>, i: nat)
    requires Offsets(fs, ti, er) && i < |fs|
    requires FacesFilled(fs, ti, faces0, faces, i) && VerticesFilled(er, positions, verts, ti[i])
    requires |faces'| == |faces| && faces'[i] == Face(fs[i].count, Range(ti[i], fs[i].count))
    requires forall k :: 0 <= k < |faces| && k != i ==> faces'[k] == faces[k]
    requires RawsBelow(fs[i], |positions|) && |verts'| == |verts| && ti[i] + fs[i].count <= |verts|
    requires forall q :: 0 <= q < ti[i] ==> verts'[q] == verts[q]
    requires forall q :: ti[i] <= q < ti[i] + fs[i].count ==> verts'[q] == positions[fs[i].raws[q - ti[i]]]
    ensures FacesFilled(fs, ti, faces0, faces', i + 1)
    ensures VerticesFilled(er, positions, verts', ti[i + 1])
  {
  }

  /** Colouring face i: once its token is in the table tc, its expanded vertices take the colour at its last raw index. */
  lemma FaceColouredStep(fs: seq<FaceLine>, ti: seq<nat>, er: seq<nat>, tabs: seq<ColourTable>, fc: seq<Colour>,
                         i: nat, tc: seq<Colour>, rh: bool, cols: seq<Colour>, cols': seq<Colour>)
    requires Offsets(fs, ti, er) && ColourPlan(fs, ti, tabs, fc) && i < |fs|
    requires ColourTable(tc, rh) == tabs[i + 1]
    requires i == 0 || ColoursFilled(fc, cols, ti[i])
    requires |cols'| == |fc|
    requires i > 0 ==> forall q :: 0 <= q < ti[i] ==> cols'[q] == cols[q]
    requires forall q :: ti[i] <= q < ti[i + 1] ==> cols'[q] == tc[LastRaw(fs[i])]
    ensures ColoursFilled(fc, cols', ti[i + 1])
  {
    forall q | 0 <= q < ti[i + 1]
      ensures cols'[q] == fc[q]
    {
      if q >= ti[i] {
        assert fc[q] == tabs[i + 1].entries[LastRaw(fs[i])];
      }
    }
  }

  /** The first p expanded vertices hold the colours tc stores at their raw indices (er lists those). */
  ghost predicate RawColoursFilled(er: seq<nat>, tc: seq<Colour>, cols: seq<Colour>, p: nat)
  {
    && |cols| == |er| && p <= |er|
    && forall q :: 0 <= q < p ==> er[q] < |tc| && cols[q] == tc[er[q]]
  }

  /** Colouring face i in the coloured-vertices fill: each of its expanded vertices takes the colour of its own raw index. */
  lemma VertexColouredStep(fs: seq<FaceLine>, ti: seq<nat>, er: seq<nat>, i: nat, tc: seq<Colour>,
                           cols: seq<Colour>, cols': seq<Colour>)
    requires Offsets(fs, ti, er) && i < |fs|
    requires i == 0 || RawColoursFilled(er, tc, cols, ti[i])
    requires |cols'| == |er| && RawsBelow(fs[i], |tc|)
    requires i > 0 ==> forall q :: 0 <= q < ti[i] ==> cols'[q] == cols[q]
    requires forall q :: ti[i] <= q < ti[i] + fs[i].count ==> cols'[q] == tc[fs[i].raws[q - ti[i]]]
    ensures RawColoursFilled(er, tc, cols', ti[i + 1])
  {
  }

  class GeoImporter {
    // ---- importer state
    var flav: Option<Flavor>
    var rgbH: bool
    /** The read cursor: index of the next line GetNextLine hands out. */
    var buffer: nat
    var line: Line
    /** The read position inside line. */
    var sz: nat
    var tempPositions: seq<Vec3>
    var tempColors: seq<Colour>
    var color: nat

    // ---- the output scene (a single mesh, the lights and the root node)
    var numMeshes: nat
    var meshFaces: seq<Face>
    /** The `faces` cursor into meshFaces. */
    var faceSlot: nat
    var meshNumFaces: nat
    var meshVertices: seq<Vec3>
    /** The `verts` cursor into meshVertices. */
    var vertexSlot: nat
    var meshNumVertices: nat
    /** The mesh's first colour channel, meaningful once meshHasColours is set. */
    var meshColours: seq<Colour>
    var meshHasColours: bool
    var lights: seq<Light>
    /** The number of light slots allocated. */
    var lightCapacity: nat
    var rootNode: Option<Node>

    constructor()
      ensures flav == None && !rgbH && tempPositions == [] && tempColors == []
      ensures buffer == 0 && line == [] && sz == 0 && color == 0
      ensures numMeshes == 0 && meshNumFaces == 0 && meshNumVertices == 0 && !meshHasColours
      ensures lights == [] && lightCapacity == 0 && rootNode == None
    {
      flav := None;
      rgbH := false;
      buffer := 0;
      line := [];
      sz := 0;
      tempPositions := [];
      tempColors := [];
      color := 0;
      numMeshes := 0;
      meshFaces := [];
      faceSlot := 0;
      meshNumFaces := 0;
      meshVertices := [];
      vertexSlot := 0;
      meshNumVertices := 0;
      meshColours := [];
      meshHasColours := false;
      lights := [];
      lightCapacity := 0;
      rootNode := None;
    }

    /**
     * CanRead: the extension is searched for, case-insensitively, in the
     * importer's extension list; failing that, a signature check is made when
     * asked for, which succeeds without an I/O handler and otherwise when the
     * file's header holds "gour" or "3dg".
     */
    method CanRead(extension: CString, checkSig: bool, hasIOHandler: bool, headerHasToken: bool)
      returns (r: bool)
      requires |extension| > 0
      requires SearchStaysInBounds(FILE_EXTENSIONS, extension)
      ensures r <==>
        (exists i :: 0 <= i < |FILE_EXTENSIONS| && FoldMatchAt(FILE_EXTENSIONS + ['\0'], i, extension))
        || (checkSig && (!hasIOHandler || headerHasToken))
    {
      var found := StrCaseStr(FILE_EXTENSIONS, extension);
      if found.Some? {
        return true;
      } else if |extension| == 0 || checkSig {
        // under the precondition the extension is never empty, so only checkSig leads here
        if !hasIOHandler {
          return true;
        }
        return headerHasToken;
      }
      return false;
    }

    /** GetNextLine: hands out the next line; at the end of the input it fails and leaves the line buffer alone. */
    method GetNextLine(text: seq<Line>) returns (ok: bool)
      requires buffer <= |text|
      modifies this`buffer, this`line
      ensures buffer <= |text|
      ensures ok <==> old(buffer) < |text|
      ensures ok ==> buffer == old(buffer) + 1 && line == text[old(buffer)]
      ensures !ok ==> buffer == old(buffer) && line == old(line)
    {
      if buffer < |text| {
        line := text[buffer];
        buffer := buffer + 1;
        return true;
      }
      return false;
    }

    /**
     * The header of InternReadFile: skips signature and comment lines, letting
     * each signature select the flavour, then reads the element count from the
     * first other line. Where the input ends inside the header this reader
     * fails with MissingElementCount (the loop as written never ends there).
     */
    method ReadHeader(text: seq<Line>) returns (count: Result<nat>)
      requires buffer == 0
      modifies this`buffer, this`line, this`flav, this`sz
      ensures var ls := LineStream(text, old(line));
        var h := ScanHeader(ls, old(flav), 0);
        && count == h.count
        && flav == h.flav
        && line == ls[h.last]
        && buffer == AfterHeader(text, h) <= |text|
    {
      var _ := GetNextLine(text);
      ghost var ls := LineStream(text, old(line));
      ghost var k := 0;
      while IsHeaderLine(line)
        invariant buffer <= |text|
        invariant k < |ls| && line == ls[k]
        invariant buffer == if |text| > 0 then k + 1 else 0
        invariant ScanHeader(ls, old(flav), 0) == ScanHeader(ls, flav, k)
        decreases |ls| - k
      {
        if IsSignatureLine(line) {
          match At(line, 3)
          case '1' =>
            flav := Some(MeshWithColouredFaces);
          case '2' =>
            flav := Some(Lamp);
          case '3' =>
          case 'R' =>
            flav := Some(MeshWithColouredVertices);
          case _ =>
            return Failure(UnknownFileVersion);
        }
        var more := GetNextLine(text);
        if !more {
          return Failure(MissingElementCount);
        }
        k := k + 1;
      }
      sz := 0;
      var n := Strtoul10(line, sz);
      sz := n.end;
      return Success(n.value);
    }

    /**
     * Three reals separated by blanks, read from the start of the line buffer.
     * The read position is left where z starts (the call that reads z does not
     * assign it); zEnd is where z stops.
     */
    method ReadVector() returns (v: Vec3, zEnd: nat)
      modifies this`sz
      ensures v == ParseVertex(line).position && zEnd == ParseVertex(line).end
      ensures sz == ParseVertex(line).zStart
    {
      sz := 0;
      var x := ReadReal(line, sz);
      sz := x.end;
      sz := SkipSpaces(line, sz);
      var y := ReadReal(line, sz);
      sz := y.end;
      sz := SkipSpaces(line, sz);
      var z := ReadReal(line, sz);
      v := Vec3(x.value, y.value, z.value);
      zEnd := z.end;
    }

    /** InternReadncV: reads count vertex lines (fewer if the input ends) into tempPositions. */
    method InternReadncV(text: seq<Line>, count: nat)
      requires buffer <= |text| && count <= |tempPositions|
      modifies this`buffer, this`line, this`sz, this`tempPositions
      ensures var vs := VertexBlock(text, old(buffer), count);
        var n := |vs|;
        && buffer == old(buffer) + n
        && |tempPositions| == |old(tempPositions)|
        && (forall k :: 0 <= k < n ==> tempPositions[k] == VertexPositions(vs)[k])
        && (forall k :: n <= k < |tempPositions| ==> tempPositions[k] == old(tempPositions)[k])
        && (n > 0 ==> line == text[buffer - 1])
        && (n == 0 ==> line == old(line))
    {
      ghost var vs := VertexBlock(text, buffer, count);
      ghost var ps := PositionsOfBlock(vs);
      PositionsOfArePositions(vs, ps);
      ReadVertices(text, count, vs, ps);
    }

    /** The InternReadncV loop over the block vs, whose positions are ps. */
    method ReadVertices(text: seq<Line>, count: nat, ghost vs: seq<Line>, ghost ps: seq<Vec3>)
      requires buffer <= |text| && count <= |tempPositions|
      requires vs == VertexBlock(text, buffer, count) && PositionsOf(vs, ps)
      modifies this`buffer, this`line, this`sz, this`tempPositions
      ensures buffer == old(buffer) + |vs|
      ensures |tempPositions| == |old(tempPositions)|
      ensures forall k :: 0 <= k < |vs| ==> tempPositions[k] == ps[k]
      ensures forall k :: |vs| <= k < |tempPositions| ==> tempPositions[k] == old(tempPositions)[k]
      ensures |vs| > 0 ==> line == text[buffer - 1]
      ensures |vs| == 0 ==> line == old(line)
    {
      ghost var start := buffer;
      var i := 0;
      while i < count
        invariant i <= count && buffer == start + i <= |text| && i <= |vs|
        invariant |tempPositions| == |old(tempPositions)|
        invariant forall k :: 0 <= k < i ==> tempPositions[k] == ps[k]
        invariant forall k :: i <= k < |tempPositions| ==> tempPositions[k] == old(tempPositions)[k]
        invariant i > 0 ==> line == text[buffer - 1]
        invariant i == 0 ==> line == old(line)
      {
        var more := ReadVertexLine(text, i, vs, ps, i);
        if !more {
          break;
        }
        i := i + 1;
      }
    }

    /** One pass of the InternReadncV loop: the next line, and its position stored at index i. */
    method ReadVertexLine(text: seq<Line>, i: nat, ghost vs: seq<Line>, ghost ps: seq<Vec3>, ghost j: nat)
        returns (ok: bool)
      requires buffer <= |text| && i < |tempPositions|
      requires PositionsOf(vs, ps) && (buffer < |text| ==> j < |vs| && text[buffer] == vs[j])
      modifies this`buffer, this`line, this`sz, this`tempPositions
      ensures ok <==> old(buffer) < |text|
      ensures ok ==> buffer == old(buffer) + 1 && line == text[old(buffer)]
      ensures ok ==> tempPositions == old(tempPositions)[i := ps[j]]
      ensures !ok ==> buffer == old(buffer) && line == old(line) && tempPositions == old(tempPositions)
    {
      ok := GetNextLine(text);
      if ok {
        var v, _ := ReadVector();
        tempPositions := tempPositions[i := v];
      }
    }

    /**
     * InternReadcV: as InternReadncV, and each vertex line's colour token is
     * stored at the vertex's index of tempColors, resized to count first; the
     * mode flag follows the tokens read.
     */
    method InternReadcV(text: seq<Line>, count: nat)
      requires buffer <= |text| && count <= |tempPositions|
      requires VertexColoursReadable(VertexBlock(text, buffer, count))
      modifies this`buffer, this`line, this`sz, this`tempPositions, this`tempColors, this`rgbH, this`color
      ensures var vs := VertexBlock(text, old(buffer), count);
        var n := |vs|;
        var init := Resize(old(tempColors), count, Unset);
        && buffer == old(buffer) + n
        && |tempPositions| == |old(tempPositions)|
        && (forall k :: 0 <= k < n ==> tempPositions[k] == VertexPositions(vs)[k])
        && (forall k :: n <= k < |tempPositions| ==> tempPositions[k] == old(tempPositions)[k])
        && |tempColors| == count
        && (forall k :: 0 <= k < n ==> tempColors[k] == ColourOr(VertexTokens(vs)[k], init[k]))
        && (forall k :: n <= k < count ==> tempColors[k] == init[k])
        && rgbH == TokensMode(old(rgbH), VertexTokens(vs))
        && (n > 0 ==> line == text[buffer - 1])
        && (n == 0 ==> line == old(line))
    {
      tempColors := Resize(tempColors, count, Unset);
      ghost var vs := VertexBlock(text, buffer, count);
      ghost var ps := PositionsOfBlock(vs);
      ghost var ts := TokensOfBlock(vs);
      PositionsOfArePositions(vs, ps);
      TokensOfAreVertexTokens(vs, ts);
      ReadColouredVertices(text, count, vs, ps, ts);
    }

    /**
     * The InternReadcV loop over the block vs, whose positions are ps and
     * colour tokens ts: tempColors has already been resized to count.
     */
    method ReadColouredVertices(text: seq<Line>, count: nat, ghost vs: seq<Line>, ghost ps: seq<Vec3>,
                                ghost ts: seq<ColourToken>)
      requires buffer <= |text| && count <= |tempPositions| && |tempColors| == count
      requires vs == VertexBlock(text, buffer, count) && PositionsOf(vs, ps) && TokensOf(vs, ts)
      modifies this`buffer, this`line, this`sz, this`tempPositions, this`tempColors, this`rgbH, this`color
      ensures buffer == old(buffer) + |vs|
      ensures |tempPositions| == |old(tempPositions)|
      ensures forall k :: 0 <= k < |vs| ==> tempPositions[k] == ps[k]
      ensures forall k :: |vs| <= k < |tempPositions| ==> tempPositions[k] == old(tempPositions)[k]
      ensures |tempColors| == count
      ensures forall k :: 0 <= k < |vs| ==> tempColors[k] == ColourOr(ts[k], old(tempColors)[k])
      ensures forall k :: |vs| <= k < count ==> tempColors[k] == old(tempColors)[k]
      ensures rgbH == TokensMode(old(rgbH), ts)
      ensures |vs| > 0 ==> line == text[buffer - 1]
      ensures |vs| == 0 ==> line == old(line)
    {
      ghost var start := buffer;
      var i := 0;
      while i < count
        invariant i <= count && buffer == start + i <= |text| && i <= |vs|
        invariant |tempPositions| == |old(tempPositions)|
        invariant forall k :: 0 <= k < i ==> tempPositions[k] == ps[k]
        invariant forall k :: i <= k < |tempPositions| ==> tempPositions[k] == old(tempPositions)[k]
        invariant |tempColors| == count
        invariant forall k :: 0 <= k < i ==> tempColors[k] == ColourOr(ts[k], old(tempColors)[k])
        invariant forall k :: i <= k < count ==> tempColors[k] == old(tempColors)[k]
        invariant rgbH == TokensMode(old(rgbH), ts[..i])
        invariant i > 0 ==> line == text[buffer - 1]
        invariant i == 0 ==> line == old(line)
      {
        var more := ReadColouredVertexLine(text, i, vs, ps, ts, i);
        if !more {
          break;
        }
        TokensModeStep(old(rgbH), ts, i);
        i := i + 1;
      }
      assert i == |vs| && ts[..i] == ts;
    }

    /** One pass of the InternReadcV loop: the next line, its position and its colour token stored at index i. */
    method ReadColouredVertexLine(text: seq<Line>, i: nat, ghost vs: seq<Line>, ghost ps: seq<Vec3>,
                                  ghost ts: seq<ColourToken>, ghost j: nat) returns (ok: bool)
      requires buffer <= |text| && i < |tempPositions| && i < |tempColors|
      requires PositionsOf(vs, ps) && TokensOf(vs, ts)
      requires buffer < |text| ==> j < |vs| && text[buffer] == vs[j]
      modifies this`buffer, this`line, this`sz, this`tempPositions, this`tempColors, this`rgbH, this`color
      ensures ok <==> old(buffer) < |text|
      ensures ok ==> buffer == old(buffer) + 1 && line == text[old(buffer)]
      ensures ok ==> tempPositions == old(tempPositions)[i := ps[j]]
      ensures ok ==> tempColors == old(tempColors)[i := ColourOr(ts[j], old(tempColors)[i])]
      ensures ok ==> rgbH == TokenMode(ts[j], old(rgbH))
      ensures !ok ==> buffer == old(buffer) && line == old(line) && tempPositions == old(tempPositions)
      ensures !ok ==> tempColors == old(tempColors) && rgbH == old(rgbH)
    {
      ok := GetNextLine(text);
      if ok {
        assert VertexColourReadable(vs[j]);
        assert ps[j] == ParseVertex(vs[j]).position && ts[j] == VertexToken(vs[j]);
        var v, zEnd := ReadVector();
        tempPositions := tempPositions[i := v];
        sz := zEnd;
        ghost var rd := TokenAt(line, sz);
        InternReadColor(i, rd);
      }
    }

    /**
     * InternReadColor: reads the colour token at sz, decimal first and, when
     * that gives 0, hexadecimal from one character earlier; stores the colour
     * it names at tempColors[pos] and records which reader succeeded in rgbH.
     * When both give 0 nothing is stored.
     */
    method InternReadColor(pos: nat, ghost rd: ColourRead)
      requires pos < |tempColors| && TokenOf(line, sz, rd)
      modifies this`sz, this`color, this`rgbH, this`tempColors
      ensures ColourTable(tempColors, rgbH) == StoreColour(ColourTable(old(tempColors), old(rgbH)), pos, rd.token)
      ensures sz == rd.end
      ensures color == match rd.token
                       case DecimalToken(v) => v
                       case HexToken(v) => v
                       case Unreadable => 0
    {
      ghost var start := sz;
      sz := SkipSpaces(line, sz);
      assert rd == ReadColourToken(line, start);
      var d := Strtoul10(line, sz);
      sz := d.end;
      color := d.value;
      if color == 0 {
        sz := sz - 1;
        color := HexStrToUl10(line, sz);
        if color == 0 {
          assert rd == ColourRead(Unreadable, sz);
          return;
        }
        assert rd == ColourRead(HexToken(color), sz);
        rgbH := true;
      } else {
        assert rd == ColourRead(DecimalToken(color), sz);
        rgbH := false;
      }
      tempColors := tempColors[pos := LookupColor(color, rgbH)];
    }

    // -------------------------------------------------------------------
    // Faces

    /**
     * The sizing pass of InternReadFile: every remaining line writes its
     * leading number into the current face slot, and each nonzero one
     * advances the slot and adds to the face counter and to the 32-bit vertex
     * counter.
     */
    method CountFaces(text: seq<Line>)
      requires buffer <= |text|
      requires faceSlot == 0 && meshNumFaces == 0 && meshNumVertices == 0
      requires forall k :: 0 <= k < |meshFaces| ==> meshFaces[k] == EMPTY_FACE
      requires SizingInBounds(text[buffer..], |meshFaces|)
      modifies this`buffer, this`line, this`sz, this`faceSlot, this`meshNumFaces, this`meshNumVertices
      modifies this`meshFaces
      ensures buffer == |text| && |meshFaces| == old(|meshFaces|)
      ensures var fs := ParsedFaces(text[old(buffer)..]);
        && meshNumFaces == |fs| && faceSlot == |fs|
        && meshNumVertices == TotalIndices(fs) % UINT32_MODULUS
        && (forall k :: 0 <= k < |fs| ==> meshFaces[k] == Face(fs[k].count, []))
        && (forall k :: |fs| <= k < |meshFaces| ==> meshFaces[k] == EMPTY_FACE)
      ensures line == BufferLine(text, old(buffer), |text|, old(line))
    {
      ghost var b := text[buffer..];
      ghost var fs, ns, ci := FaceBlockOf(b);
      if |b| > 0 {
        FaceBlockStep(b, fs, ns, ci, |b| - 1);
      }
      SizeFaces(text, b, fs, ns, ci);
    }

    /** The sizing loop over the face block b (see FaceBlock). */
    method SizeFaces(text: seq<Line>, ghost b: seq<Line>, ghost fs: seq<FaceLine>, ghost ns: seq<nat>,
                     ghost ci: seq<nat>)
      requires buffer <= |text| && b == text[buffer..] && FaceBlock(b, fs, ns, ci)
      requires ci[0] == 0 && ci[|b|] == |fs|
      requires |b| == 0 || ci[|b| - 1] < |meshFaces|
      requires |fs| <= |meshFaces|
      requires faceSlot == 0 && meshNumFaces == 0 && meshNumVertices == 0
      requires forall k :: 0 <= k < |meshFaces| ==> meshFaces[k] == EMPTY_FACE
      modifies this`buffer, this`line, this`sz, this`faceSlot, this`meshNumFaces, this`meshNumVertices
      modifies this`meshFaces
      ensures buffer == |text| && |meshFaces| == old(|meshFaces|) && SizedUpTo(fs, |fs|)
      ensures line == BufferLine(text, old(buffer), |text|, old(line))
    {
      ghost var start := buffer;
      ghost var j := 0;
      while true
        invariant j <= |b| && buffer == start + j <= |text| && ci[j] <= |fs| && |meshFaces| == old(|meshFaces|)
        invariant line == BufferLine(text, start, buffer, old(line))
        invariant SizedUpTo(fs, ci[j])
        decreases |text| - buffer
      {
        if j < |b| {
          FaceBlockStep(b, fs, ns, ci, j);
        }
        var more := SizeFaceLine(text, b, fs, ns, ci, j);
        if !more {
          break;
        }
        j := j + 1;
      }
    }

    /**
     * The state of the sizing pass after the first i faces of fs: one slot
     * and one count per face, the vertex counter at their index total modulo
     * 2^32, the other slots untouched.
     */
    ghost predicate SizedUpTo(fs: seq<FaceLine>, i: nat)
      reads this`meshNumFaces, this`faceSlot, this`meshNumVertices, this`meshFaces
      requires i <= |fs| <= |meshFaces|
    {
      && meshNumFaces == faceSlot == i
      && meshNumVertices == IndicesBefore(fs, i) % UINT32_MODULUS
      && (forall k :: 0 <= k < i ==> meshFaces[k] == Face(fs[k].count, []))
      && (forall k :: i <= k < |meshFaces| ==> meshFaces[k] == EMPTY_FACE)
    }

    /** One pass of the sizing loop: line j's leading number, written to the current face slot and counted when nonzero. */
    method SizeFaceLine(text: seq<Line>, ghost b: seq<Line>, ghost fs: seq<FaceLine>, ghost ns: seq<nat>,
                        ghost ci: seq<nat>, ghost j: nat) returns (ok: bool)
      requires buffer <= |text| && FaceBlock(b, fs, ns, ci) && j <= |b| && |fs| <= |meshFaces|
      requires ci[j] <= |fs| && SizedUpTo(fs, ci[j])
      requires buffer < |text| ==> j < |b| && text[buffer] == b[j]
      requires j < |b| ==> ci[j] < |meshFaces|
      requires j < |b| ==> ci[j + 1] == ci[j] + (if ns[j] != 0 then 1 else 0) && ci[j + 1] <= |fs|
      requires j < |b| && ns[j] != 0 ==> ci[j] < |fs| && fs[ci[j]].count == ns[j]
      modifies this`buffer, this`line, this`sz, this`faceSlot, this`meshNumFaces, this`meshNumVertices
      modifies this`meshFaces
      ensures ok <==> old(buffer) < |text|
      ensures |meshFaces| == old(|meshFaces|)
      ensures ok ==> buffer == old(buffer) + 1 && line == text[old(buffer)] && SizedUpTo(fs, ci[j + 1])
      ensures !ok ==> buffer == old(buffer) && line == old(line) && SizedUpTo(fs, ci[j])
    {
      ok := GetNextLine(text);
      if !ok {
        return;
      }
      assert ns[j] == LeadingNumber(b[j]);
      sz := 0;
      var c := Strtoul10(line, sz);
      sz := c.end;
      CountFace(c.value, fs, ci[j]);
    }

    /**
     * The count n of the next line is written to the current face slot (the
     * i-th); a nonzero count then advances the slot and adds to the face and
     * 32-bit vertex counters.
     */
    method CountFace(n: nat, ghost fs: seq<FaceLine>, ghost i: nat)
      requires i < |meshFaces| && i <= |fs| <= |meshFaces| && SizedUpTo(fs, i)
      requires n != 0 ==> i < |fs| && fs[i].count == n
      modifies this`faceSlot, this`meshNumFaces, this`meshNumVertices, this`meshFaces
      ensures |meshFaces| == old(|meshFaces|)
      ensures SizedUpTo(fs, if n != 0 then i + 1 else i)
    {
      assert meshFaces[faceSlot] == EMPTY_FACE;
      meshFaces := meshFaces[faceSlot := meshFaces[faceSlot].(numIndices := n)];
      if n == 0 {
        assert meshFaces == old(meshFaces);
        return;
      }
      ModAdd(IndicesBefore(fs, i), n, UINT32_MODULUS);
      meshNumFaces := meshNumFaces + 1;
      meshNumVertices := (meshNumVertices + n) % UINT32_MODULUS;
      faceSlot := faceSlot + 1;
    }
  
    // -------------------------------------------------------------------
    // The fill passes

    /**
     * The state of a fill pass after the first i faces of fs, whose expanded
     * vertices so far number p: each of those faces has its record, each of
     * those vertices the position of its raw index (er lists the raw index of
     * every expanded vertex), and the later face slots still hold faces0.
     */
    ghost predicate FilledUpTo(fs: seq<FaceLine>, ti: seq<nat>, er: seq<nat>, faces0: seq<Face>, i: nat, p: nat)
      reads this`meshFaces, this`meshVertices, this`tempPositions, this`faceSlot, this`vertexSlot
    {
      && FacesFilled(fs, ti, faces0, meshFaces, i)
      && VerticesFilled(er, tempPositions, meshVertices, p) && |meshVertices| == |er|
      && faceSlot == i && vertexSlot == p && p == ti[i]
    }

    /**
     * The colours of the coloured-faces fill after the first i faces: the
     * colour table is the plan's table before face i, and the first p
     * expanded vertices have their colours in fc.
     */
    ghost predicate FaceColouredUpTo(tabs: seq<ColourTable>, fc: seq<Colour>, i: nat, p: nat)
      reads this`tempColors, this`rgbH, this`meshHasColours, this`meshColours
    {
      && i < |tabs| && ColourTable(tempColors, rgbH) == tabs[i]
      && (i == 0 ==> !meshHasColours)
      && (i > 0 ==> meshHasColours && ColoursFilled(fc, meshColours, p))
    }

    /**
     * The colours of the coloured-vertices fill after the first i faces: each
     * of the first p expanded vertices has the colour of its raw index.
     */
    ghost predicate VertexColouredUpTo(er: seq<nat>, i: nat, p: nat)
      reads this`meshHasColours, this`meshColours, this`tempColors
    {
      && (i == 0 ==> !meshHasColours)
      && (i > 0 ==> meshHasColours && RawColoursFilled(er, tempColors, meshColours, p))
    }

    /**
     * The index loop of InternReadcF: idx raw indices read from sz on, each
     * one's position appended to the vertex buffer; the face's indices are
     * the next idx expanded indices, and pos is the last raw index read.
     */
    method CopyFaceVertices(idx: nat, p: nat, ghost raws: seq<nat>, ghost ends: seq<nat>)
        returns (indices: seq<nat>, pos: nat, p': nat)
      requires idx == |raws| >= 1 && IndicesOf(line, sz, raws, ends)
      requires vertexSlot == p && p + idx <= |meshVertices|
      requires forall m :: 0 <= m < idx ==> raws[m] < |tempPositions|
      modifies this`sz, this`vertexSlot, this`meshVertices
      ensures indices == Range(p, idx) && pos == raws[idx - 1] && p' == p + idx && vertexSlot == p'
      ensures sz == ends[idx] && |meshVertices| == old(|meshVertices|)
      ensures forall q :: p <= q < p + idx ==> meshVertices[q] == tempPositions[raws[q - p]]
      ensures forall q :: 0 <= q < p ==> meshVertices[q] == old(meshVertices)[q]
    {
      ghost var l := line;
      ghost var s0 := sz;
      indices := [];
      pos := 0;
      p' := p;
      var m := 0;
      while m < idx
        invariant m <= idx && p' == p + m && vertexSlot == p' && indices == Range(p, m)
        invariant line == l && sz == ends[m] && |meshVertices| == old(|meshVertices|)
        invariant m > 0 ==> pos == raws[m - 1]
        invariant forall q :: p <= q < p + m ==> meshVertices[q] == tempPositions[raws[q - p]]
        invariant forall q :: 0 <= q < p ==> meshVertices[q] == old(meshVertices)[q]
      {
        pos := ReadFaceIndex(l, s0, m, raws, ends);
        indices := indices + [p'];
        p' := p' + 1;
        meshVertices := meshVertices[vertexSlot := tempPositions[pos]];
        vertexSlot := vertexSlot + 1;
        m := m + 1;
      }
    }

    /** One raw index of a face line: blanks skipped, then the number at sz; the m-th of raws. */
    method ReadFaceIndex(ghost l: Line, ghost s0: nat, ghost m: nat, ghost raws: seq<nat>, ghost ends: seq<nat>)
        returns (pos: nat)
      requires line == l && IndicesOf(l, s0, raws, ends) && m < |raws| && sz == ends[m]
      modifies this`sz
      ensures pos == raws[m] && sz == ends[m + 1]
    {
      assert ends[m] == ReadIndices(l, s0, m).end && ends[m + 1] == ReadIndices(l, s0, m + 1).end;
      assert ReadIndices(l, s0, m + 1).raws == raws[..m + 1];
      sz := SkipSpaces(line, sz);
      var r := Strtoul10(line, sz);
      sz := r.end;
      pos := r.value;
    }

    /** The colour loop of InternReadcF: every index of the face takes tempColors[pos]. */
    method SpreadFaceColour(indices: seq<nat>, p: nat, pos: nat)
      requires indices == Range(p, |indices|) && p + |indices| <= |meshColours| && pos < |tempColors|
      modifies this`meshColours
      ensures |meshColours| == old(|meshColours|)
      ensures forall q :: p <= q < p + |indices| ==> meshColours[q] == tempColors[pos]
      ensures forall q :: 0 <= q < p ==> meshColours[q] == old(meshColours)[q]
    {
      var l := 0;
      while l < |indices|
        invariant l <= |indices| && |meshColours| == old(|meshColours|)
        invariant forall q :: p <= q < p + l ==> meshColours[q] == tempColors[pos]
        invariant forall q :: 0 <= q < p ==> meshColours[q] == old(meshColours)[q]
      {
        meshColours := meshColours[indices[l] := tempColors[pos]];
        l := l + 1;
      }
    }
  
    /** The first face read allocates the mesh's colour channel, one entry per expanded vertex. */
    method AllocateColours()
      modifies this`meshColours, this`meshHasColours
      ensures meshHasColours
      ensures old(meshHasColours) ==> meshColours == old(meshColours)
      ensures !old(meshHasColours) ==> meshColours == seq(meshNumVertices, _ => Unset)
    {
      if !meshHasColours {
        meshColours := seq(meshNumVertices, _ => Unset);
        meshHasColours := true;
      }
    }

    /**
     * The body of InternReadcF for a counted line whose indices are raws and
     * whose colour token is rd: the channel is allocated at the first such
     * face, the face's positions are appended, its token is stored at its last
     * raw index, its vertices take the colour found there, and it gets the
     * next idx expanded indices.
     */
    method ReadColouredFace(idx: nat, p: nat, ghost raws: seq<nat>, ghost ends: seq<nat>, ghost rd: ColourRead)
        returns (p': nat)
      requires idx == |raws| >= 1 && IndicesOf(line, sz, raws, ends) && TokenOf(line, ends[idx], rd)
      requires vertexSlot == p && p + idx <= |meshVertices| && p + idx <= meshNumVertices
      requires forall m :: 0 <= m < idx ==> raws[m] < |tempPositions|
      requires raws[idx - 1] < |tempColors| && faceSlot < |meshFaces|
      requires meshHasColours ==> |meshColours| == meshNumVertices
      modifies this`sz, this`color, this`rgbH, this`tempColors, this`faceSlot, this`vertexSlot
      modifies this`meshColours, this`meshHasColours, this`meshFaces, this`meshVertices
      ensures p' == p + idx && vertexSlot == p' && faceSlot == old(faceSlot) + 1
      ensures |meshFaces| == old(|meshFaces|) && |meshVertices| == old(|meshVertices|)
      ensures meshFaces[old(faceSlot)] == Face(idx, Range(p, idx))
      ensures forall k :: 0 <= k < |meshFaces| && k != old(faceSlot) ==> meshFaces[k] == old(meshFaces)[k]
      ensures forall q :: p <= q < p + idx ==> meshVertices[q] == tempPositions[raws[q - p]]
      ensures forall q :: 0 <= q < p ==> meshVertices[q] == old(meshVertices)[q]
      ensures ColourTable(tempColors, rgbH) == StoreColour(old(ColourTable(tempColors, rgbH)), raws[idx - 1], rd.token)
      ensures sz == rd.end
      ensures meshHasColours && |meshColours| == meshNumVertices
      ensures forall q :: p <= q < p + idx ==> meshColours[q] == tempColors[raws[idx - 1]]
      ensures old(meshHasColours) ==> forall q :: 0 <= q < p ==> meshColours[q] == old(meshColours)[q]
    {
      AllocateColours();
      var indices, pos;
      indices, pos, p' := CopyFaceVertices(idx, p, raws, ends);
      meshFaces := meshFaces[faceSlot := Face(idx, indices)];
      InternReadColor(pos, rd);
      SpreadFaceColour(indices, p, pos);
      faceSlot := faceSlot + 1;
    }
  
    /**
     * InternReadcF: tempColors is resized to count, then the face lines are
     * read again from the cursor until count faces have been read. Each face
     * gets the next expanded indices, its vertices the positions of its raw
     * indices, and, after its colour token has been stored at its last raw
     * index, the colour found there. The face cursor ends on the last face.
     */
    method InternReadcF(text: seq<Line>, count: nat)
      requires buffer <= |text|
      requires var fs := ParsedFaces(text[buffer..]);
        && count == |fs| <= |meshFaces|
        && |meshVertices| == meshNumVertices == TotalIndices(fs)
        && AllRawsBelow(fs, |tempPositions|) && LastRawsBelow(fs, count)
      requires faceSlot == 0 && vertexSlot == 0 && !meshHasColours
      modifies this`buffer, this`line, this`sz, this`color, this`rgbH, this`tempColors, this`faceSlot
      modifies this`vertexSlot, this`meshColours, this`meshHasColours, this`meshFaces, this`meshVertices
      ensures ColouredFacesFilled(text, old(buffer), ColourTable(Resize(old(tempColors), count, Unset), old(rgbH)),
                                  old(meshFaces))
      ensures faceSlot == if count > 0 then count - 1 else 0
    {
      tempColors := Resize(tempColors, count, Unset);
      FillColouredFaces(text, count);
      LastFace(count);
    }

    /**
     * What the coloured-faces fill leaves behind, for the face block read
     * from line start on, the colour table st0 and the face slots faces0 it
     * started from: the cursor just past the last counted line, the colour
     * table after every face stored its token (FaceColours), the face slots
     * holding the face records, every expanded vertex the position of its raw
     * index, and, when there is a face, the colour channel holding the colours
     * of FaceColours.
     */
    ghost predicate ColouredFacesFilled(text: seq<Line>, start: nat, st0: ColourTable, faces0: seq<Face>)
      reads this`buffer, this`line, this`tempColors, this`rgbH, this`meshFaces, this`meshVertices
      reads this`tempPositions, this`meshHasColours, this`meshColours, this`vertexSlot
    {
      && FaceMeshFilled(text, start, faces0)
      && var fs := ParsedFaces(text[start..]);
      && LastRawsBelow(fs, |st0.entries|)
      && ColourTable(tempColors, rgbH) == FaceColours(st0, fs).0
      && (|fs| > 0 ==> meshHasColours && meshColours == FaceColours(st0, fs).1)
      && (|fs| == 0 ==> !meshHasColours)
    }

    /** The InternReadcF loop over the face lines from the cursor on; the face cursor is left after the last face. */
    method FillColouredFaces(text: seq<Line>, count: nat)
      requires buffer <= |text|
      requires var fs := ParsedFaces(text[buffer..]);
        && count == |fs| == |tempColors| && |fs| <= |meshFaces|
        && |meshVertices| == meshNumVertices == TotalIndices(fs)
        && AllRawsBelow(fs, |tempPositions|) && LastRawsBelow(fs, count)
      requires faceSlot == 0 && vertexSlot == 0 && !meshHasColours
      modifies this`buffer, this`line, this`sz, this`color, this`rgbH, this`tempColors, this`faceSlot
      modifies this`vertexSlot, this`meshColours, this`meshHasColours, this`meshFaces, this`meshVertices
      ensures ColouredFacesFilled(text, old(buffer), ColourTable(old(tempColors), old(rgbH)), old(meshFaces))
      ensures faceSlot == count
    {
      ghost var b := text[buffer..];
      ghost var st0 := ColourTable(tempColors, rgbH);
      ghost var fs, ns, ci, ti, er, tabs, fc := ColouredFacePlan(b, st0);
      ghost var faces0 := meshFaces;
      ColouredFaceLoop(text, count, b, fs, ns, ci, ti, er, tabs, fc, faces0);
      ColouredFillComplete(text, old(buffer), old(line), st0, faces0, b, fs, ti, er, tabs, fc);
    }

    /** The end state of the coloured-faces loop, restated as ColouredFacesFilled. */
    lemma ColouredFillComplete(text: seq<Line>, start: nat, l0: Line, st0: ColourTable, faces0: seq<Face>,
                               b: seq<Line>, fs: seq<FaceLine>, ti: seq<nat>, er: seq<nat>,
                               tabs: seq<ColourTable>, fc: seq<Colour>)
      requires start <= |text| && b == text[start..] && fs == ParsedFaces(b) && LastRawsBelow(fs, |st0.entries|)
      requires er == ExpandedRaws(fs) && fc == FaceColours(st0, fs).1
      requires Offsets(fs, ti, er) && ColourPlan(fs, ti, tabs, fc) && tabs[|fs|] == FaceColours(st0, fs).0
      requires forall k :: 0 <= k < |fs| ==> FaceRecords(fs)[k] == Face(fs[k].count, Range(ti[k], fs[k].count))
      requires FilledUpTo(fs, ti, er, faces0, |fs|, |er|) && FaceColouredUpTo(tabs, fc, |fs|, |er|)
      requires buffer == start + EndOfCounted(b) && LineBuffered(text, start, l0)
      ensures ColouredFacesFilled(text, start, st0, faces0)
    {
      ColouredFillDone(fs, ti, er, tabs, fc, faces0, meshFaces, tempPositions, meshVertices, meshColours);
      assert ColourTable(tempColors, rgbH) == FaceColours(st0, fs).0;
      assert |meshFaces| == |faces0| && |fs| <= |faces0|;
      assert |meshVertices| == |er| && vertexSlot == |meshVertices|;
      assert SlotsHold(meshFaces, FaceRecords(fs), faces0);
      assert forall q :: 0 <= q < |er| ==> er[q] < |tempPositions| && meshVertices[q] == tempPositions[er[q]];
      assert FaceMeshFilled(text, start, faces0);
      assert |fs| > 0 ==> meshHasColours && meshColours == FaceColours(st0, fs).1;
    }

    /** After a face loop over count faces the face cursor steps back onto the last face, when there is one. */
    method LastFace(count: nat)
      requires count > 0 ==> faceSlot > 0
      modifies this`faceSlot
      ensures faceSlot == if count > 0 then old(faceSlot) - 1 else old(faceSlot)
    {
      if count > 0 {
        faceSlot := faceSlot - 1;
      }
    }

    /** The loop of InternReadcF, run against the plans of the face block b. */
    method ColouredFaceLoop(text: seq<Line>, count: nat, ghost b: seq<Line>, ghost fs: seq<FaceLine>,
                            ghost ns: seq<nat>, ghost ci: seq<nat>, ghost ti: seq<nat>, ghost er: seq<nat>,
                            ghost tabs: seq<ColourTable>, ghost fc: seq<Colour>, ghost faces0: seq<Face>)
      requires buffer <= |text| && b == text[buffer..] && count == |fs|
      requires FaceBlock(b, fs, ns, ci) && ci[0] == 0 && ci[|b|] == |fs|
      requires Offsets(fs, ti, er) && ColourPlan(fs, ti, tabs, fc)
      requires |er| == |meshVertices| == meshNumVertices && AllRawsBelow(fs, |tempPositions|)
      requires FilledUpTo(fs, ti, er, faces0, 0, 0) && FaceColouredUpTo(tabs, fc, 0, 0)
      modifies this`buffer, this`line, this`sz, this`color, this`rgbH, this`tempColors, this`faceSlot
      modifies this`vertexSlot, this`meshColours, this`meshHasColours, this`meshFaces, this`meshVertices
      ensures FilledUpTo(fs, ti, er, faces0, |fs|, |er|) && FaceColouredUpTo(tabs, fc, |fs|, |er|)
      ensures buffer == old(buffer) + EndOfCounted(b) && LineBuffered(text, old(buffer), old(line))
    {
      ghost var start, l0 := buffer, line;
      ColouredLoopEntry(text, count, b, fs, ns, ci, ti, er, tabs, fc, faces0);
      ghost var j := 0;
      var i: nat := 0;
      var p: nat := 0;
      while i < count
        invariant ColouredFillAt(text, start, l0, b, fs, ns, ci, ti, er, tabs, fc, faces0, i, p, j)
        decreases |b| - j
      {
        i, p := ColouredFaceStep(text, count, i, p, b, fs, ns, ci, j, ti, er, tabs, fc, faces0, start, l0);
        j := j + 1;
      }
      ColouredLoopExit(text, start, l0, b, fs, ns, ci, ti, er, tabs, fc, faces0, p, j);
    }

    /** The coloured-faces loop before its first pass: no face read, the line buffer as it was. */
    lemma ColouredLoopEntry(text: seq<Line>, count: nat, b: seq<Line>, fs: seq<FaceLine>,
                            ns: seq<nat>, ci: seq<nat>, ti: seq<nat>, er: seq<nat>,
                            tabs: seq<ColourTable>, fc: seq<Colour>, faces0: seq<Face>)
      requires buffer <= |text| && b == text[buffer..] && count == |fs|
      requires FaceBlock(b, fs, ns, ci) && ci[0] == 0 && ci[|b|] == |fs|
      requires Offsets(fs, ti, er) && ColourPlan(fs, ti, tabs, fc)
      requires |er| == |meshVertices| == meshNumVertices && AllRawsBelow(fs, |tempPositions|)
      requires FilledUpTo(fs, ti, er, faces0, 0, 0) && FaceColouredUpTo(tabs, fc, 0, 0)
      ensures ColouredFillAt(text, buffer, line, b, fs, ns, ci, ti, er, tabs, fc, faces0, 0, 0, 0)
    {
    }


    /** The coloured-faces loop once every face is read: the fill is complete up to the last counted line. */
    lemma ColouredLoopExit(text: seq<Line>, start: nat, l0: Line, b: seq<Line>, fs: seq<FaceLine>,
                           ns: seq<nat>, ci: seq<nat>, ti: seq<nat>, er: seq<nat>,
                           tabs: seq<ColourTable>, fc: seq<Colour>, faces0: seq<Face>, p: nat, j: nat)
      requires FaceBlock(b, fs, ns, ci) && Offsets(fs, ti, er)
      requires ColouredFillAt(text, start, l0, b, fs, ns, ci, ti, er, tabs, fc, faces0, |fs|, p, j)
      ensures FilledUpTo(fs, ti, er, faces0, |fs|, |er|) && FaceColouredUpTo(tabs, fc, |fs|, |er|)
      ensures buffer == start + EndOfCounted(b) && LineBuffered(text, start, l0)
    {
      FaceBlockStop(b, fs, ns, ci, j);
    }

    /**
     * The state of the InternReadcF loop before line j of the block b read
     * from line start on: face i is next, at expanded vertex p, and the line
     * buffer holds the last line read.
     */
    ghost predicate ColouredFillAt(text: seq<Line>, start: nat, l0: Line, b: seq<Line>, fs: seq<FaceLine>,
                                   ns: seq<nat>, ci: seq<nat>, ti: seq<nat>, er: seq<nat>,
                                   tabs: seq<ColourTable>, fc: seq<Colour>, faces0: seq<Face>, i: nat, p: nat, j: nat)
      reads this
    {
      && |ci| == |b| + 1 && |ns| == |b|
      && j <= |b| && buffer == start + j && i == ci[j] <= |fs|
      && LineBuffered(text, start, l0)
      && FilledUpTo(fs, ti, er, faces0, i, p) && FaceColouredUpTo(tabs, fc, i, p)
      && |er| == |meshVertices| == meshNumVertices && AllRawsBelow(fs, |tempPositions|)
      && (i < |fs| ==> j < |b|)
      && (i == |fs| ==> j == 0 || ns[j - 1] != 0)
    }

    /** One iteration of the InternReadcF loop, taking the loop's state at line j of the block to line j + 1. */
    method ColouredFaceStep(text: seq<Line>, count: nat, i: nat, p: nat, ghost b: seq<Line>, ghost fs: seq<FaceLine>,
                            ghost ns: seq<nat>, ghost ci: seq<nat>, ghost j: nat, ghost ti: seq<nat>,
                            ghost er: seq<nat>, ghost tabs: seq<ColourTable>, ghost fc: seq<Colour>,
                            ghost faces0: seq<Face>, ghost start: nat, ghost l0: Line)
        returns (i': nat, p': nat)
      requires start <= |text| && b == text[start..] && count == |fs|
      requires FaceBlock(b, fs, ns, ci) && ci[|b|] == |fs|
      requires Offsets(fs, ti, er) && ColourPlan(fs, ti, tabs, fc)
      requires i < count && ColouredFillAt(text, start, l0, b, fs, ns, ci, ti, er, tabs, fc, faces0, i, p, j)
      modifies this`buffer, this`line, this`sz, this`color, this`rgbH, this`tempColors, this`faceSlot
      modifies this`vertexSlot, this`meshColours, this`meshHasColours, this`meshFaces, this`meshVertices
      ensures ColouredFillAt(text, start, l0, b, fs, ns, ci, ti, er, tabs, fc, faces0, i', p', j + 1)
    {
      var ok;
      ok, i', p' := FillColouredFaceLine(text, i, p, b, fs, ns, ci, j, ti, er, tabs, fc, faces0, start, l0);
      // the counted lines all lie before the end of the input
      assert ok;
    }

    /** One pass of the InternReadcF loop: line j of the block, read as face i when its count is nonzero. */
    method FillColouredFaceLine(text: seq<Line>, i: nat, p: nat, ghost b: seq<Line>, ghost fs: seq<FaceLine>,
                                ghost ns: seq<nat>, ghost ci: seq<nat>, ghost j: nat, ghost ti: seq<nat>,
                                ghost er: seq<nat>, ghost tabs: seq<ColourTable>, ghost fc: seq<Colour>,
                                ghost faces0: seq<Face>, ghost start: nat, ghost l0: Line)
        returns (ok: bool, i': nat, p': nat)
      requires buffer <= |text| && FaceBlock(b, fs, ns, ci) && j <= |b| && i == ci[j] < |fs| == ci[|b|]
      requires LineBuffered(text, start, l0)
      requires buffer < |text| ==> j < |b| && text[buffer] == b[j]
      requires Offsets(fs, ti, er) && ColourPlan(fs, ti, tabs, fc)
      requires |er| == |meshVertices| == meshNumVertices && AllRawsBelow(fs, |tempPositions|)
      requires FilledUpTo(fs, ti, er, faces0, i, p) && FaceColouredUpTo(tabs, fc, i, p)
      modifies this`buffer, this`line, this`sz, this`color, this`rgbH, this`tempColors, this`faceSlot
      modifies this`vertexSlot, this`meshColours, this`meshHasColours, this`meshFaces, this`meshVertices
      ensures ok <==> old(buffer) < |text|
      ensures ok ==> buffer == old(buffer) + 1 && line == text[old(buffer)] && i' == ci[j + 1]
      ensures ok ==> (i' == |fs| ==> ns[j] != 0) && (i' < |fs| ==> j + 1 < |b|)
      ensures FilledUpTo(fs, ti, er, faces0, i', p') && FaceColouredUpTo(tabs, fc, i', p')
      ensures !ok ==> buffer == old(buffer) && line == old(line) && i' == i && p' == p
      ensures LineBuffered(text, start, l0)
    {
      var idx;
      ok, idx := NextFaceCount(text, start, l0);
      if ok {
        i', p' := ColouredFaceLine(idx, i, p, b, fs, ns, ci, j, ti, er, tabs, fc, faces0);
      } else {
        i', p' := i, p;
      }
    }

    /** Line j of the block, now in the line buffer with its index count idx read: face i when idx is nonzero. */
    method ColouredFaceLine(idx: nat, i: nat, p: nat, ghost b: seq<Line>, ghost fs: seq<FaceLine>,
                            ghost ns: seq<nat>, ghost ci: seq<nat>, ghost j: nat, ghost ti: seq<nat>,
                            ghost er: seq<nat>, ghost tabs: seq<ColourTable>, ghost fc: seq<Colour>,
                            ghost faces0: seq<Face>)
        returns (i': nat, p': nat)
      requires FaceBlock(b, fs, ns, ci) && j < |b| && i == ci[j] < |fs| == ci[|b|]
      requires line == b[j] && idx == LeadingNumber(line) && sz == Strtoul10(line, 0).end
      requires Offsets(fs, ti, er) && ColourPlan(fs, ti, tabs, fc)
      requires |er| == |meshVertices| == meshNumVertices && AllRawsBelow(fs, |tempPositions|)
      requires FilledUpTo(fs, ti, er, faces0, i, p) && FaceColouredUpTo(tabs, fc, i, p)
      modifies this`sz, this`color, this`rgbH, this`tempColors, this`faceSlot
      modifies this`vertexSlot, this`meshColours, this`meshHasColours, this`meshFaces, this`meshVertices
      ensures i' == ci[j + 1] && (i' == |fs| ==> ns[j] != 0) && (i' < |fs| ==> j + 1 < |b|)
      ensures FilledUpTo(fs, ti, er, faces0, i', p') && FaceColouredUpTo(tabs, fc, i', p')
    {
      FaceBlockStep(b, fs, ns, ci, j);
      assert ns[j] == LeadingNumber(b[j]);
      if idx == 0 {
        return i, p;
      }
      p' := FillColouredFace(idx, i, p, fs, ti, er, tabs, fc, faces0);
      i' := i + 1;
    }

    /**
     * The head of a fill-pass iteration: the next line, and the index count
     * at its start; the line buffer goes on holding the last line handed out
     * since line start.
     */
    method NextFaceCount(text: seq<Line>, ghost start: nat, ghost l0: Line) returns (ok: bool, idx: nat)
      requires buffer <= |text| && LineBuffered(text, start, l0)
      modifies this`buffer, this`line, this`sz
      ensures ok <==> old(buffer) < |text|
      ensures ok ==> buffer == old(buffer) + 1 && line == text[old(buffer)]
      ensures ok ==> idx == LeadingNumber(line) && sz == Strtoul10(line, 0).end
      ensures !ok ==> buffer == old(buffer) && line == old(line) && sz == old(sz)
      ensures LineBuffered(text, start, l0)
    {
      idx := 0;
      ok := GetNextLine(text);
      if !ok {
        return;
      }
      sz := 0;
      var c := Strtoul10(line, sz);
      sz := c.end;
      idx := c.value;
    }

    /** Face i of the coloured-faces fill, on a counted line whose index count idx has just been read. */
    method FillColouredFace(idx: nat, i: nat, p: nat, ghost fs: seq<FaceLine>, ghost ti: seq<nat>, ghost er: seq<nat>,
                            ghost tabs: seq<ColourTable>, ghost fc: seq<Colour>, ghost faces0: seq<Face>)
        returns (p': nat)
      requires idx == LeadingNumber(line) != 0 && sz == Strtoul10(line, 0).end
      requires Offsets(fs, ti, er) && ColourPlan(fs, ti, tabs, fc)
      requires i < |fs| && fs[i] == ParseFace(line)
      requires |er| == |meshVertices| == meshNumVertices && RawsBelow(fs[i], |tempPositions|)
      requires FilledUpTo(fs, ti, er, faces0, i, p) && FaceColouredUpTo(tabs, fc, i, p)
      modifies this`sz, this`color, this`rgbH, this`tempColors, this`faceSlot, this`vertexSlot
      modifies this`meshColours, this`meshHasColours, this`meshFaces, this`meshVertices
      ensures FilledUpTo(fs, ti, er, faces0, i + 1, p') && FaceColouredUpTo(tabs, fc, i + 1, p')
    {
      ghost var raws, ends, rd := FaceLineScan(line);
      ghost var faces, verts, cols := meshFaces, meshVertices, meshColours;
      p' := ReadColouredFace(idx, p, raws, ends, rd);
      FaceFilledStep(fs, ti, er, faces0, faces, meshFaces, tempPositions, verts, meshVertices, i);
      FaceColouredStep(fs, ti, er, tabs, fc, i, tempColors, rgbH, cols, meshColours);
    }

    /**
     * InternReadncF: the face lines are read again from the cursor until
     * mNumFaces faces have been read. Each face gets the next expanded
     * indices, and each of its vertices the position and the colour stored at
     * its own raw index. The face cursor ends on the last face.
     */
    method InternReadncF(text: seq<Line>, count: nat)
      requires buffer <= |text|
      requires var fs := ParsedFaces(text[buffer..]);
        && meshNumFaces == |fs| <= |meshFaces|
        && |meshVertices| == meshNumVertices == TotalIndices(fs)
        && AllRawsBelow(fs, |tempPositions|) && AllRawsBelow(fs, |tempColors|)
      requires faceSlot == 0 && vertexSlot == 0 && !meshHasColours
      requires count > 0 ==> meshNumFaces > 0
      modifies this`buffer, this`line, this`sz, this`faceSlot, this`vertexSlot
      modifies this`meshColours, this`meshHasColours, this`meshFaces, this`meshVertices
      ensures VertexColouredFacesFilled(text, old(buffer), old(meshFaces))
      ensures faceSlot == if count > 0 then meshNumFaces - 1 else meshNumFaces
    {
      FillVertexColouredFaces(text);
      LastFace(count);
    }

    /**
     * What a fill pass leaves behind in the faces and vertices, for the face
     * block read from line start on and the face slots faces0 it started
     * from: the cursor just past the last counted line, which the line buffer
     * holds when there is one, the face slots holding
     * the face records, and every expanded vertex the position of its raw
     * index.
     */
    ghost predicate FaceMeshFilled(text: seq<Line>, start: nat, faces0: seq<Face>)
      reads this`buffer, this`line, this`meshFaces, this`meshVertices, this`tempPositions, this`vertexSlot
    {
      start <= |text| &&
      var b := text[start..];
      var fs := ParsedFaces(b);
      var er := ExpandedRaws(fs);
      && buffer == start + EndOfCounted(b)
      && (buffer > start ==> line == text[buffer - 1])
      && SlotsHold(meshFaces, FaceRecords(fs), faces0)
      && |meshVertices| == |er|
      && (forall q :: 0 <= q < |er| ==> er[q] < |tempPositions| && meshVertices[q] == tempPositions[er[q]])
      && vertexSlot == |meshVertices|
    }

    /**
     * What the coloured-vertices fill leaves behind: the faces and vertices
     * of FaceMeshFilled and, when there is a face, a colour channel giving
     * every expanded vertex the colour stored at its raw index.
     */
    ghost predicate VertexColouredFacesFilled(text: seq<Line>, start: nat, faces0: seq<Face>)
      reads this`buffer, this`line, this`meshFaces, this`meshVertices, this`tempPositions, this`vertexSlot
      reads this`meshHasColours, this`meshColours, this`tempColors
    {
      && FaceMeshFilled(text, start, faces0)
      && var er := ExpandedRaws(ParsedFaces(text[start..]));
      && (|er| > 0 ==> meshHasColours && RawColoursFilled(er, tempColors, meshColours, |er|))
      && (|er| == 0 ==> !meshHasColours)
    }

    /** The InternReadncF loop over the face lines from the cursor on; the face cursor is left after the last face. */
    method FillVertexColouredFaces(text: seq<Line>)
      requires buffer <= |text|
      requires var fs := ParsedFaces(text[buffer..]);
        && meshNumFaces == |fs| <= |meshFaces|
        && |meshVertices| == meshNumVertices == TotalIndices(fs)
        && AllRawsBelow(fs, |tempPositions|) && AllRawsBelow(fs, |tempColors|)
      requires faceSlot == 0 && vertexSlot == 0 && !meshHasColours
      modifies this`buffer, this`line, this`sz, this`faceSlot, this`vertexSlot
      modifies this`meshColours, this`meshHasColours, this`meshFaces, this`meshVertices
      ensures VertexColouredFacesFilled(text, old(buffer), old(meshFaces))
      ensures faceSlot == meshNumFaces
    {
      ghost var b := text[buffer..];
      ghost var fs, ns, ci := FaceBlockOf(b);
      ParsedFacesCountsMatch(b, |b|);
      ghost var er := ExpandedRaws(fs);
      ExpandedRawsLength(fs, |fs|);
      ghost var ti := OffsetsOf(fs);
      ghost var faces0 := meshFaces;
      VertexColouredFaceLoop(text, b, fs, ns, ci, ti, er, faces0);
      VertexColouredFillComplete(text, old(buffer), old(line), faces0, b, fs, ti, er);
    }

    /** The end state of the coloured-vertices loop, restated as VertexColouredFacesFilled. */
    lemma VertexColouredFillComplete(text: seq<Line>, start: nat, l0: Line, faces0: seq<Face>,
                                     b: seq<Line>, fs: seq<FaceLine>, ti: seq<nat>, er: seq<nat>)
      requires start <= |text| && b == text[start..] && fs == ParsedFaces(b) && er == ExpandedRaws(fs)
      requires Offsets(fs, ti, er) && CountsMatch(fs)
      requires forall k :: 0 <= k < |fs| ==> FaceRecords(fs)[k] == Face(fs[k].count, Range(ti[k], fs[k].count))
      requires FilledUpTo(fs, ti, er, faces0, |fs|, |er|) && VertexColouredUpTo(er, |fs|, |er|)
      requires buffer == start + EndOfCounted(b) && LineBuffered(text, start, l0)
      ensures VertexColouredFacesFilled(text, start, faces0)
    {
      FacesFilledComplete(fs, ti, faces0, meshFaces);
      if |fs| > 0 {
        assert fs[0].count >= 1 && ti[1] == fs[0].count && ti[1] <= |er|;
      }
      assert |er| > 0 ==> |fs| > 0;
      assert FaceMeshFilled(text, start, faces0);
    }

    /** The loop of InternReadncF, bounded by the face count, run against the plan of the face block b. */
    method VertexColouredFaceLoop(text: seq<Line>, ghost b: seq<Line>, ghost fs: seq<FaceLine>,
                                  ghost ns: seq<nat>, ghost ci: seq<nat>, ghost ti: seq<nat>, ghost er: seq<nat>,
                                  ghost faces0: seq<Face>)
      requires buffer <= |text| && b == text[buffer..] && meshNumFaces == |fs|
      requires FaceBlock(b, fs, ns, ci) && ci[0] == 0 && ci[|b|] == |fs| && Offsets(fs, ti, er)
      requires |er| == |meshVertices| == meshNumVertices
      requires AllRawsBelow(fs, |tempPositions|) && AllRawsBelow(fs, |tempColors|)
      requires FilledUpTo(fs, ti, er, faces0, 0, 0) && VertexColouredUpTo(er, 0, 0)
      modifies this`buffer, this`line, this`sz, this`faceSlot, this`vertexSlot
      modifies this`meshColours, this`meshHasColours, this`meshFaces, this`meshVertices
      ensures FilledUpTo(fs, ti, er, faces0, |fs|, |er|) && VertexColouredUpTo(er, |fs|, |er|)
      ensures buffer == old(buffer) + EndOfCounted(b) && meshNumFaces == |fs|
      ensures LineBuffered(text, old(buffer), old(line))
    {
      ghost var start, l0 := buffer, line;
      VertexColouredLoopEntry(text, b, fs, ns, ci, ti, er, faces0);
      ghost var j := 0;
      var i: nat := 0;
      var p: nat := 0;
      while i < meshNumFaces
        invariant VertexColouredFillAt(text, start, l0, b, fs, ns, ci, ti, er, faces0, i, p, j)
        decreases |b| - j
      {
        i, p := VertexColouredFaceStep(text, i, p, b, fs, ns, ci, j, ti, er, faces0, start, l0);
        j := j + 1;
      }
      VertexColouredLoopExit(text, start, l0, b, fs, ns, ci, ti, er, faces0, p, j);
    }

    /** The vertex-coloured-faces loop before its first pass: no face read, the line buffer as it was. */
    lemma VertexColouredLoopEntry(text: seq<Line>, b: seq<Line>, fs: seq<FaceLine>, ns: seq<nat>, ci: seq<nat>,
                                  ti: seq<nat>, er: seq<nat>, faces0: seq<Face>)
      requires buffer <= |text| && b == text[buffer..] && meshNumFaces == |fs|
      requires FaceBlock(b, fs, ns, ci) && ci[0] == 0 && ci[|b|] == |fs| && Offsets(fs, ti, er)
      requires |er| == |meshVertices| == meshNumVertices
      requires AllRawsBelow(fs, |tempPositions|) && AllRawsBelow(fs, |tempColors|)
      requires FilledUpTo(fs, ti, er, faces0, 0, 0) && VertexColouredUpTo(er, 0, 0)
      ensures VertexColouredFillAt(text, buffer, line, b, fs, ns, ci, ti, er, faces0, 0, 0, 0)
    {
    }

    /** The vertex-coloured-faces loop once every face is read: the fill is complete up to the last counted line. */
    lemma VertexColouredLoopExit(text: seq<Line>, start: nat, l0: Line, b: seq<Line>, fs: seq<FaceLine>,
                                 ns: seq<nat>, ci: seq<nat>, ti: seq<nat>, er: seq<nat>,
                                 faces0: seq<Face>, p: nat, j: nat)
      requires FaceBlock(b, fs, ns, ci) && Offsets(fs, ti, er)
      requires VertexColouredFillAt(text, start, l0, b, fs, ns, ci, ti, er, faces0, |fs|, p, j)
      ensures FilledUpTo(fs, ti, er, faces0, |fs|, |er|) && VertexColouredUpTo(er, |fs|, |er|)
      ensures buffer == start + EndOfCounted(b) && meshNumFaces == |fs| && LineBuffered(text, start, l0)
    {
      FaceBlockStop(b, fs, ns, ci, j);
    }

    /**
     * The state of the InternReadncF loop before line j of the block b read
     * from line start on: face i is next, at expanded vertex p, and the line
     * buffer holds the last line read.
     */
    ghost predicate VertexColouredFillAt(text: seq<Line>, start: nat, l0: Line, b: seq<Line>, fs: seq<FaceLine>,
                                         ns: seq<nat>, ci: seq<nat>, ti: seq<nat>, er: seq<nat>,
                                         faces0: seq<Face>, i: nat, p: nat, j: nat)
      reads this
    {
      && |ci| == |b| + 1 && |ns| == |b|
      && j <= |b| && buffer == start + j && i == ci[j] <= |fs| == meshNumFaces
      && LineBuffered(text, start, l0)
      && FilledUpTo(fs, ti, er, faces0, i, p) && VertexColouredUpTo(er, i, p)
      && |er| == |meshVertices| == meshNumVertices
      && AllRawsBelow(fs, |tempPositions|) && AllRawsBelow(fs, |tempColors|)
      && (i < |fs| ==> j < |b|)
      && (i == |fs| ==> j == 0 || ns[j - 1] != 0)
    }

    /** One iteration of the InternReadncF loop, taking the loop's state at line j of the block to line j + 1. */
    method VertexColouredFaceStep(text: seq<Line>, i: nat, p: nat, ghost b: seq<Line>, ghost fs: seq<FaceLine>,
                                  ghost ns: seq<nat>, ghost ci: seq<nat>, ghost j: nat, ghost ti: seq<nat>,
                                  ghost er: seq<nat>, ghost faces0: seq<Face>, ghost start: nat, ghost l0: Line)
        returns (i': nat, p': nat)
      requires start <= |text| && b == text[start..]
      requires FaceBlock(b, fs, ns, ci) && ci[|b|] == |fs| && Offsets(fs, ti, er)
      requires i < |fs| && VertexColouredFillAt(text, start, l0, b, fs, ns, ci, ti, er, faces0, i, p, j)
      modifies this`buffer, this`line, this`sz, this`faceSlot, this`vertexSlot
      modifies this`meshColours, this`meshHasColours, this`meshFaces, this`meshVertices
      ensures VertexColouredFillAt(text, start, l0, b, fs, ns, ci, ti, er, faces0, i', p', j + 1)
    {
      var ok;
      ok, i', p' := FillVertexColouredFaceLine(text, i, p, b, fs, ns, ci, j, ti, er, faces0, start, l0);
      // the counted lines all lie before the end of the input
      assert ok;
    }

    /** One pass of the InternReadncF loop: line j of the block, read as face i when its count is nonzero. */
    method FillVertexColouredFaceLine(text: seq<Line>, i: nat, p: nat, ghost b: seq<Line>, ghost fs: seq<FaceLine>,
                                      ghost ns: seq<nat>, ghost ci: seq<nat>, ghost j: nat, ghost ti: seq<nat>,
                                      ghost er: seq<nat>, ghost faces0: seq<Face>, ghost start: nat, ghost l0: Line)
        returns (ok: bool, i': nat, p': nat)
      requires buffer <= |text| && FaceBlock(b, fs, ns, ci) && j <= |b| && i == ci[j] < |fs| == ci[|b|]
      requires LineBuffered(text, start, l0)
      requires buffer < |text| ==> j < |b| && text[buffer] == b[j]
      requires Offsets(fs, ti, er) && |er| == |meshVertices| == meshNumVertices
      requires AllRawsBelow(fs, |tempPositions|) && AllRawsBelow(fs, |tempColors|)
      requires FilledUpTo(fs, ti, er, faces0, i, p) && VertexColouredUpTo(er, i, p)
      modifies this`buffer, this`line, this`sz, this`faceSlot, this`vertexSlot
      modifies this`meshColours, this`meshHasColours, this`meshFaces, this`meshVertices
      ensures ok <==> old(buffer) < |text|
      ensures ok ==> buffer == old(buffer) + 1 && line == text[old(buffer)] && i' == ci[j + 1]
      ensures ok ==> (i' == |fs| ==> ns[j] != 0) && (i' < |fs| ==> j + 1 < |b|)
      ensures FilledUpTo(fs, ti, er, faces0, i', p') && VertexColouredUpTo(er, i', p')
      ensures !ok ==> buffer == old(buffer) && line == old(line) && i' == i && p' == p
      ensures LineBuffered(text, start, l0)
    {
      var idx;
      ok, idx := NextFaceCount(text, start, l0);
      if ok {
        i', p' := VertexColouredFaceLine(idx, i, p, b, fs, ns, ci, j, ti, er, faces0);
      } else {
        i', p' := i, p;
      }
    }

    /** Line j of the block, now in the line buffer with its index count idx read: face i when idx is nonzero. */
    method VertexColouredFaceLine(idx: nat, i: nat, p: nat, ghost b: seq<Line>, ghost fs: seq<FaceLine>,
                                  ghost ns: seq<nat>, ghost ci: seq<nat>, ghost j: nat, ghost ti: seq<nat>,
                                  ghost er: seq<nat>, ghost faces0: seq<Face>)
        returns (i': nat, p': nat)
      requires FaceBlock(b, fs, ns, ci) && j < |b| && i == ci[j] < |fs| == ci[|b|]
      requires line == b[j] && idx == LeadingNumber(line) && sz == Strtoul10(line, 0).end
      requires Offsets(fs, ti, er) && |er| == |meshVertices| == meshNumVertices
      requires AllRawsBelow(fs, |tempPositions|) && AllRawsBelow(fs, |tempColors|)
      requires FilledUpTo(fs, ti, er, faces0, i, p) && VertexColouredUpTo(er, i, p)
      modifies this`sz, this`faceSlot, this`vertexSlot
      modifies this`meshColours, this`meshHasColours, this`meshFaces, this`meshVertices
      ensures i' == ci[j + 1] && (i' == |fs| ==> ns[j] != 0) && (i' < |fs| ==> j + 1 < |b|)
      ensures FilledUpTo(fs, ti, er, faces0, i', p') && VertexColouredUpTo(er, i', p')
    {
      FaceBlockStep(b, fs, ns, ci, j);
      assert ns[j] == LeadingNumber(b[j]);
      if idx == 0 {
        return i, p;
      }
      p' := FillVertexColouredFace(idx, i, p, fs, ti, er, faces0);
      i' := i + 1;
    }

    /** Face i of the coloured-vertices fill, on a counted line whose index count idx has just been read. */
    method FillVertexColouredFace(idx: nat, i: nat, p: nat, ghost fs: seq<FaceLine>, ghost ti: seq<nat>,
                                  ghost er: seq<nat>, ghost faces0: seq<Face>)
        returns (p': nat)
      requires idx == LeadingNumber(line) != 0 && sz == Strtoul10(line, 0).end
      requires Offsets(fs, ti, er) && i < |fs| && fs[i] == ParseFace(line)
      requires |er| == |meshVertices| == meshNumVertices
      requires RawsBelow(fs[i], |tempPositions|) && RawsBelow(fs[i], |tempColors|)
      requires FilledUpTo(fs, ti, er, faces0, i, p) && VertexColouredUpTo(er, i, p)
      modifies this`sz, this`faceSlot, this`vertexSlot
      modifies this`meshColours, this`meshHasColours, this`meshFaces, this`meshVertices
      ensures FilledUpTo(fs, ti, er, faces0, i + 1, p') && VertexColouredUpTo(er, i + 1, p')
    {
      ghost var raws, ends := IndicesOfLine(line, sz, idx);
      ghost var faces, verts, cols := meshFaces, meshVertices, meshColours;
      p' := ReadVertexColouredFace(idx, p, raws, ends);
      FaceFilledStep(fs, ti, er, faces0, faces, meshFaces, tempPositions, verts, meshVertices, i);
      VertexColouredStep(fs, ti, er, i, tempColors, cols, meshColours);
    }

    /**
     * The body of InternReadncF for a counted line whose indices are raws:
     * the channel is allocated at the first such face, each raw index's
     * position and colour are appended, and the face gets the next idx
     * expanded indices.
     */
    method ReadVertexColouredFace(idx: nat, p: nat, ghost raws: seq<nat>, ghost ends: seq<nat>) returns (p': nat)
      requires idx == |raws| >= 1 && IndicesOf(line, sz, raws, ends)
      requires vertexSlot == p && p + idx <= |meshVertices| && p + idx <= meshNumVertices
      requires forall m :: 0 <= m < idx ==> raws[m] < |tempPositions| && raws[m] < |tempColors|
      requires faceSlot < |meshFaces|
      requires meshHasColours ==> |meshColours| == meshNumVertices
      modifies this`sz, this`faceSlot, this`vertexSlot
      modifies this`meshColours, this`meshHasColours, this`meshFaces, this`meshVertices
      ensures p' == p + idx && vertexSlot == p' && faceSlot == old(faceSlot) + 1
      ensures |meshFaces| == old(|meshFaces|) && |meshVertices| == old(|meshVertices|)
      ensures meshFaces[old(faceSlot)] == Face(idx, Range(p, idx))
      ensures forall k :: 0 <= k < |meshFaces| && k != old(faceSlot) ==> meshFaces[k] == old(meshFaces)[k]
      ensures forall q :: p <= q < p + idx ==> meshVertices[q] == tempPositions[raws[q - p]]
      ensures forall q :: 0 <= q < p ==> meshVertices[q] == old(meshVertices)[q]
      ensures meshHasColours && |meshColours| == meshNumVertices
      ensures forall q :: p <= q < p + idx ==> meshColours[q] == tempColors[raws[q - p]]
      ensures old(meshHasColours) ==> forall q :: 0 <= q < p ==> meshColours[q] == old(meshColours)[q]
    {
      AllocateColours();
      var indices;
      indices, p' := CopyColouredFaceVertices(idx, p, raws, ends);
      meshFaces := meshFaces[faceSlot := Face(idx, indices)];
      faceSlot := faceSlot + 1;
    }

    /**
     * The index loop of InternReadncF: idx raw indices read from sz on, each
     * one's position appended to the vertex buffer and its colour to the
     * colour channel; the face's indices are the next idx expanded indices.
     */
    method CopyColouredFaceVertices(idx: nat, p: nat, ghost raws: seq<nat>, ghost ends: seq<nat>)
        returns (indices: seq<nat>, p': nat)
      requires idx == |raws| >= 1 && IndicesOf(line, sz, raws, ends)
      requires vertexSlot == p && p + idx <= |meshVertices| && p + idx <= |meshColours|
      requires forall m :: 0 <= m < idx ==> raws[m] < |tempPositions| && raws[m] < |tempColors|
      modifies this`sz, this`vertexSlot, this`meshVertices, this`meshColours
      ensures indices == Range(p, idx) && p' == p + idx && vertexSlot == p'
      ensures sz == ends[idx] && |meshVertices| == old(|meshVertices|) && |meshColours| == old(|meshColours|)
      ensures forall q :: p <= q < p + idx ==> meshVertices[q] == tempPositions[raws[q - p]]
      ensures forall q :: 0 <= q < p ==> meshVertices[q] == old(meshVertices)[q]
      ensures forall q :: p <= q < p + idx ==> meshColours[q] == tempColors[raws[q - p]]
      ensures forall q :: 0 <= q < p ==> meshColours[q] == old(meshColours)[q]
    {
      ghost var l := line;
      ghost var s0 := sz;
      indices := [];
      p' := p;
      var m := 0;
      while m < idx
        invariant m <= idx && p' == p + m && vertexSlot == p' && indices == Range(p, m)
        invariant line == l && sz == ends[m]
        invariant |meshVertices| == old(|meshVertices|) && |meshColours| == old(|meshColours|)
        invariant forall q :: p <= q < p + m ==> meshVertices[q] == tempPositions[raws[q - p]]
        invariant forall q :: 0 <= q < p ==> meshVertices[q] == old(meshVertices)[q]
        invariant forall q :: p <= q < p + m ==> meshColours[q] == tempColors[raws[q - p]]
        invariant forall q :: 0 <= q < p ==> meshColours[q] == old(meshColours)[q]
      {
        var pos := ReadFaceIndex(l, s0, m, raws, ends);
        indices := indices + [p'];
        p' := p' + 1;
        meshVertices := meshVertices[vertexSlot := tempPositions[pos]];
        meshColours := meshColours[indices[m] := tempColors[pos]];
        vertexSlot := vertexSlot + 1;
        m := m + 1;
      }
    }

    // -------------------------------------------------------------------
    // Lamps, curves and the scene

    /**
     * InternReadLamp: room for count lights is allocated, then every record
     * of five lines from the cursor on (type, spot angles, colour, position,
     * direction) becomes the next light, named after its ordinal and type. A
     * record cut short by the end of the input reads the last line again for
     * each missing line.
     */
    method InternReadLamp(text: seq<Line>, count: nat)
      requires buffer <= |text| && lights == []
      requires LampRecordCount(text, buffer) <= count && LampNamesFit(text, buffer, 1)
      modifies this`buffer, this`line, this`sz, this`lights, this`lightCapacity
      ensures lightCapacity == count && buffer == |text|
      ensures lights == Lights(text, old(buffer), LampRecordCount(text, old(buffer)))
      ensures line == BufferLine(text, old(buffer), |text|, old(line))
    {
      lightCapacity := count;
      ReadLampRecords(text, buffer);
    }

    /**
     * The state of the lamp loop after k records of the block from line
     * start on: the lights read so far, the cursor at the next record (or at
     * the end of the input), room for every record, and names that fit.
     */
    ghost predicate LampLoop(text: seq<Line>, start: nat, k: nat)
      reads this`buffer, this`lights, this`lightCapacity
    {
      var r := LampRecordCount(text, start);
      && k <= r <= lightCapacity
      && (k == 0 || start + 5 * (k - 1) < |text|)
      && lights == Lights(text, start, k)
      && LampNamesFit(text, start + 5 * k, k + 1)
      && buffer == (if start + 5 * k < |text| then start + 5 * k else |text|)
      && (k < r <==> buffer < |text|)
    }

    /** The lamp loop: records are read until the input ends. */
    method ReadLampRecords(text: seq<Line>, ghost start: nat)
      requires buffer == start <= |text| && lights == []
      requires LampRecordCount(text, start) <= lightCapacity && LampNamesFit(text, start, 1)
      modifies this`buffer, this`line, this`sz, this`lights
      ensures buffer == |text|
      ensures lights == Lights(text, start, LampRecordCount(text, start))
      ensures line == BufferLine(text, start, |text|, old(line))
    {
      ghost var k := 0;
      assert LampLoop(text, start, k);
      while true
        invariant LampLoop(text, start, k)
        invariant LineBuffered(text, start, old(line))
        decreases LampRecordCount(text, start) - k
      {
        var more := ReadLampRecord(text, start, k, old(line));
        if !more {
          break;
        }
        k := k + 1;
      }
      assert k == LampRecordCount(text, start);
    }

    /** One pass of the lamp loop: record k, starting at the next line, appended as the next light. */
    method ReadLampRecord(text: seq<Line>, ghost start: nat, ghost k: nat, ghost l0: Line) returns (ok: bool)
      requires LampLoop(text, start, k)
      requires LineBuffered(text, start, l0)
      modifies this`buffer, this`line, this`sz, this`lights
      ensures ok ==> k < LampRecordCount(text, start) && LampLoop(text, start, k + 1)
      ensures !ok ==> buffer == |text| && LampLoop(text, start, k)
      ensures LineBuffered(text, start, l0)
    {
      ok := GetNextLine(text);
      if ok {
        LampLoopStep(text, start, k);
        NextNamesFit(text, start, k);
        ReadLampFields(text, start, k);
        RecordEnd(text, start + 5 * k);
        RecordLineBuffered(text, start, k, l0);
        LampLoopNext(text, start, k);
      }
    }

    /** Once record k has been read, the line buffer holds the last line the record asked for. */
    lemma RecordLineBuffered(text: seq<Line>, start: nat, k: nat, l0: Line)
      requires start + 5 * k < |text| && buffer == RecordCursor(text, start + 5 * k, 4)
      requires line == RecordLine(text, start + 5 * k, 4)
      ensures LineBuffered(text, start, l0)
    {
      RecordEnd(text, start + 5 * k);
    }

    /** The lamp loop's state after record k has been read and appended. */
    lemma LampLoopNext(text: seq<Line>, start: nat, k: nat)
      requires k < LampRecordCount(text, start) <= lightCapacity && start + 5 * k < |text|
      requires start + 5 * (k + 1) < |text| <==> k + 1 < LampRecordCount(text, start)
      requires lights == Lights(text, start, k + 1) && LampNamesFit(text, start + 5 * (k + 1), k + 2)
      requires buffer == (if start + 5 * (k + 1) < |text| then start + 5 * (k + 1) else |text|)
      ensures LampLoop(text, start, k + 1)
    {
    }

    /** Record k, whose first line has just been read: its light is built and appended to the lights. */
    method ReadLampFields(text: seq<Line>, ghost start: nat, ghost k: nat)
      requires start + 5 * k < |text| && buffer == start + 5 * k + 1 && line == text[start + 5 * k]
      requires lights == Lights(text, start, k) && LampNameFits(k + 1, LeadingNumber(text[start + 5 * k]))
      requires k < lightCapacity
      modifies this`buffer, this`line, this`sz, this`lights
      ensures buffer == RecordCursor(text, start + 5 * k, 4) && line == RecordLine(text, start + 5 * k, 4)
      ensures lights == Lights(text, start, k + 1)
    {
      var ordinal := |lights| + 1;
      var light := ReadLamp(text, start + 5 * k, ordinal);
      AppendLight(text, start, k, ordinal, light);
    }

    /** The light of record k appended to the lights of the records before it. */
    method AppendLight(text: seq<Line>, ghost start: nat, ghost k: nat, ghost ordinal: nat, light: Light)
      requires start + 5 * k < |text| && lights == Lights(text, start, k) && k < lightCapacity
      requires ordinal == k + 1 && light == ParseLamp(text, start + 5 * k, ordinal)
      modifies this`lights
      ensures lights == Lights(text, start, k + 1)
    {
      NextLight(text, start, k, ordinal, lights, light);
      // the light goes into the next of the slots allocated
      assert |lights| < lightCapacity;
      lights := lights + [light];
    }

    /** The record starting at line c, whose first line has just been read, as the light numbered ordinal. */
    method ReadLamp(text: seq<Line>, ghost c: nat, ordinal: nat) returns (light: Light)
      requires c < |text| && buffer == c + 1 && line == text[c]
      requires LampNameFits(ordinal, LeadingNumber(text[c]))
      modifies this`buffer, this`line, this`sz
      ensures light == ParseLamp(text, c, ordinal)
      ensures buffer == RecordCursor(text, c, 4) && line == RecordLine(text, c, 4)
    {
      var t := Strtoul10(line, 0);
      sz := t.end;
      LampNameLength(ordinal, t.value);
      var name := LampName(ordinal, t.value);
      // the name, with its terminator, is printed into a 16-byte buffer
      assert |name| < LAMP_NAME_BUFFER;
      light := Light(name, t.value, Decimal(0, 0), Decimal(0, 0), ZERO_VECTOR, ZERO_VECTOR, ZERO_VECTOR);
      light := ReadLampBody(text, c, ordinal, light);
    }

    /** The rest of the record starting at line c, whose first line gave the light its type and name. */
    method ReadLampBody(text: seq<Line>, ghost c: nat, ghost ordinal: nat, light0: Light) returns (light: Light)
      requires c < |text| && line == text[c] && buffer == c + 1 && light0 == LampAfter(text, c, ordinal, 0)
      modifies this`buffer, this`line, this`sz
      ensures light == LampAfter(text, c, ordinal, 4)
      ensures buffer == RecordCursor(text, c, 4) && line == RecordLine(text, c, 4)
    {
      light := ReadSpot(text, c, ordinal, light0);
      light := ReadRecordTriple(text, c, ordinal, 2, light);
      light := ReadRecordTriple(text, c, ordinal, 3, light);
      light := ReadRecordTriple(text, c, ordinal, 4, light);
    }

    /** The spot line of the record starting at line c: the inner and the outer cone angle. */
    method ReadSpot(text: seq<Line>, ghost c: nat, ghost ordinal: nat, light0: Light) returns (light: Light)
      requires c < |text| && line == RecordLine(text, c, 0) && buffer == RecordCursor(text, c, 0)
      requires light0 == LampAfter(text, c, ordinal, 0)
      modifies this`buffer, this`line, this`sz
      ensures light == LampAfter(text, c, ordinal, 1)
      ensures line == RecordLine(text, c, 1) && buffer == RecordCursor(text, c, 1)
    {
      NextRecordLine(text, c, 0);
      sz := 0;
      var inner := ReadReal(line, sz);
      sz := inner.end;
      sz := SkipSpaces(line, sz);
      var outer := ReadReal(line, sz);
      light := light0.(innerCone := inner.value, outerCone := outer.value);
    }

    /** Line t of the record starting at line c, read as three reals: the colour, the position or the direction. */
    method ReadRecordTriple(text: seq<Line>, ghost c: nat, ghost ordinal: nat, t: nat, light0: Light) returns (light: Light)
      requires c < |text| && 2 <= t <= 4 && line == RecordLine(text, c, t - 1)
      requires buffer == RecordCursor(text, c, t - 1) && light0 == LampAfter(text, c, ordinal, t - 1)
      modifies this`buffer, this`line, this`sz
      ensures light == LampAfter(text, c, ordinal, t)
      ensures line == RecordLine(text, c, t) && buffer == RecordCursor(text, c, t)
    {
      NextRecordLine(text, c, t - 1);
      var v, zEnd := ReadVector();
      light := if t == 2 then light0.(diffuse := v)
               else if t == 3 then light0.(position := v)
               else light0.(direction := v);
    }

    /** The next line of the record starting at line c: past the end of the input the line buffer keeps the last line. */
    method NextRecordLine(text: seq<Line>, ghost c: nat, ghost t: nat)
      requires c < |text| && line == RecordLine(text, c, t)
      requires buffer == RecordCursor(text, c, t)
      modifies this`buffer, this`line
      ensures line == RecordLine(text, c, t + 1)
      ensures buffer == RecordCursor(text, c, t + 1)
    {
      var _ := GetNextLine(text);
    }

    /**
     * InternReadFbS: the rest of the input is skipped and the import fails,
     * since curves and surfaces are not read.
     */
    method InternReadFbS(text: seq<Line>, count: nat) returns (err: ImportError)
      requires buffer <= |text|
      modifies this`buffer, this`line, this`sz
      ensures err == CurvesNotSupported && buffer == |text|
      ensures old(buffer) < |text| ==> line == text[|text| - 1] && sz == 0
      ensures old(buffer) == |text| ==> line == old(line) && sz == old(sz)
    {
      while true
        invariant old(buffer) <= buffer <= |text|
        invariant buffer > old(buffer) ==> line == text[buffer - 1] && sz == 0
        invariant buffer == old(buffer) ==> line == old(line) && sz == old(sz)
        decreases |text| - buffer
      {
        var more := GetNextLine(text);
        if !more {
          break;
        }
        sz := 0;
      }
      return CurvesNotSupported;
    }

    /** InternReadFinish: the root node, named "<GEORoot>", lists every mesh of the scene, in order. */
    method InternReadFinish()
      modifies this`rootNode
      ensures rootNode == Some(Node(ROOT_NODE_NAME, Range(0, numMeshes)))
    {
      var meshes := seq(numMeshes, _ => 0);
      var i := 0;
      while i < numMeshes
        invariant i <= numMeshes && |meshes| == numMeshes
        invariant forall k :: 0 <= k < i ==> meshes[k] == k
      {
        meshes := meshes[i := i];
        i := i + 1;
      }
      assert meshes == Range(0, numMeshes);
      rootNode := Some(Node(ROOT_NODE_NAME, meshes));
    }

    // ---- the whole import

    /**
     * InternReadFile: a fresh scene is taken over, the header read, and the
     * body read according to the flavour selected. The importer's own state
     * (flavour, mode flag, line buffer, temporary positions and colours)
     * carries over from the previous file.
     */
    method InternReadFile(text: seq<Line>) returns (err: Option<ImportError>)
      requires ImportDefined(text, flav, line)
      modifies this
      ensures var h := ScanHeader(LineStream(text, old(line)), old(flav), 0);
        && flav == h.flav
        && (h.count.Failure? ==> err == Some(h.count.error))
        && (h.count.Failure? ==> tempPositions == old(tempPositions) && tempColors == old(tempColors) && rgbH == old(rgbH))
        && (h.count.Failure? ==> line == LineStream(text, old(line))[h.last])
        && (h.count.Success? ==> BodyImported(text, AfterHeader(text, h), h.count.value, h.flav,
                                              Resize(old(tempPositions), h.count.value, ZERO_VECTOR),
                                              old(tempColors), old(rgbH), LineStream(text, old(line))[h.last], err))
    {
      ghost var h := ScanHeader(LineStream(text, line), flav, 0);
      ghost var p0, c0, r0 := tempPositions, tempColors, rgbH;
      NewScene();
      var count := ReadHeader(text);
      if count.Failure? {
        return Some(count.error);
      }
      err := ImportBody(text, count.value, AfterHeader(text, h), h.count.value, h.flav, p0, c0, r0);
    }

    /** The scene handed to the import: no light, no mesh, no root node; the cursor at the file's first line. */
    method NewScene()
      modifies this`lights, this`lightCapacity, this`rootNode, this`numMeshes, this`buffer
      ensures lights == [] && lightCapacity == 0 && rootNode == None && numMeshes == 0 && buffer == 0
    {
      lights := [];
      lightCapacity := 0;
      rootNode := None;
      numMeshes := 0;
      buffer := 0;
    }

    /**
     * The body of InternReadFile after the header, with the element count n:
     * the single mesh is set up and the temporary positions resized, then the
     * flavour decides which readers run.
     */
    method ImportBody(text: seq<Line>, n: nat, ghost start: nat, ghost n0: nat, ghost fl: Option<Flavor>,
                      ghost p0: seq<Vec3>, ghost c0: seq<Colour>, ghost r0: bool) returns (err: Option<ImportError>)
      requires start == buffer && n0 == n && fl == flav && p0 == tempPositions && c0 == tempColors && r0 == rgbH
      requires lights == [] && lightCapacity == 0 && BodyDefined(text, buffer, n, flav)
      modifies this`buffer, this`line, this`sz, this`tempPositions, this`color, this`rgbH, this`tempColors
      modifies this`faceSlot, this`meshNumFaces, this`meshNumVertices, this`meshFaces, this`meshVertices
      modifies this`vertexSlot, this`meshColours, this`meshHasColours, this`rootNode, this`numMeshes
      modifies this`lights, this`lightCapacity
      ensures BodyImported(text, start, n0, fl, Resize(p0, n0, ZERO_VECTOR), c0, r0, old(line), err)
    {
      NewMesh(n);
      match flav
      case None =>
        return Some(FlavourNotSet);
      case Some(GouraudCurvesOrNurbsSurfaces) =>
        err := ImportCurves(text, n, start, n0, fl, Resize(p0, n0, ZERO_VECTOR), c0, r0);
      case Some(Lamp) =>
        err := ImportLampBody(text, n, start, n0, fl, Resize(p0, n0, ZERO_VECTOR), c0, r0);
      case Some(_) =>
        err := ImportMesh(text, n, start, n0, fl, Resize(p0, n0, ZERO_VECTOR), c0, r0);
    }

    /** The curves flavour after NewMesh: the body is skipped and the import fails. */
    method ImportCurves(text: seq<Line>, n: nat, ghost start: nat, ghost n0: nat, ghost fl: Option<Flavor>,
                        ghost p0: seq<Vec3>, ghost c0: seq<Colour>, ghost r0: bool) returns (err: Option<ImportError>)
      requires fl == flav == Some(GouraudCurvesOrNurbsSurfaces)
      requires start == buffer && n0 == n && p0 == tempPositions && c0 == tempColors && r0 == rgbH
      requires BodyDefined(text, buffer, n, flav)
      modifies this`buffer, this`line, this`sz
      ensures BodyImported(text, start, n0, fl, p0, c0, r0, old(line), err)
    {
      var e := InternReadFbS(text, n);
      return Some(e);
    }

    /** The lamp flavour after NewMesh: one light per lamp record. */
    method ImportLampBody(text: seq<Line>, n: nat, ghost start: nat, ghost n0: nat, ghost fl: Option<Flavor>,
                          ghost p0: seq<Vec3>, ghost c0: seq<Colour>, ghost r0: bool) returns (err: Option<ImportError>)
      requires fl == flav == Some(Lamp)
      requires start == buffer && n0 == n && p0 == tempPositions && c0 == tempColors && r0 == rgbH
      requires lights == [] && numMeshes == 1 && FreshMesh() && BodyDefined(text, buffer, n, flav)
      modifies this`buffer, this`line, this`sz, this`lights, this`lightCapacity, this`meshVertices
      modifies this`vertexSlot, this`faceSlot, this`rootNode
      ensures BodyImported(text, start, n0, fl, p0, c0, r0, old(line), err)
    {
      ImportLamps(text, n, start, n0);
      return None;
    }

    /** The two mesh flavours after NewMesh: the vertex block and the face block, as the flavour reads them. */
    method ImportMesh(text: seq<Line>, n: nat, ghost start: nat, ghost n0: nat, ghost fl: Option<Flavor>,
                      ghost p0: seq<Vec3>, ghost c0: seq<Colour>, ghost r0: bool) returns (err: Option<ImportError>)
      requires fl == flav && (fl == Some(MeshWithColouredFaces) || fl == Some(MeshWithColouredVertices))
      requires start == buffer && n0 == n && p0 == tempPositions && c0 == tempColors && r0 == rgbH
      requires |tempPositions| == n && numMeshes == 1 && FreshMesh() && BodyDefined(text, buffer, n, flav)
      requires NoLights()
      modifies this`buffer, this`line, this`sz, this`tempPositions, this`color, this`rgbH, this`tempColors
      modifies this`faceSlot, this`meshNumFaces, this`meshNumVertices, this`meshFaces, this`meshVertices
      modifies this`vertexSlot, this`meshColours, this`meshHasColours, this`rootNode
      ensures BodyImported(text, start, n0, fl, p0, c0, r0, old(line), err)
    {
      if flav == Some(MeshWithColouredFaces) {
        err := ImportColouredFaces(text, n, start, n0, p0, c0, r0);
      } else {
        err := ImportColouredVertices(text, n, start, n0, p0, c0, r0);
      }
    }

    /**
     * The outcome of reading the body from line start on, for the element
     * count n and the flavour flav, from the temporary positions p0 (already
     * resized), colours c0 and mode flag r0 it started with.
     */
    ghost predicate BodyImported(text: seq<Line>, start: nat, n: nat, flav: Option<Flavor>, p0: seq<Vec3>,
                                 c0: seq<Colour>, r0: bool, l0: Line, err: Option<ImportError>)
      reads this
    {
      match flav
      case None => err == Some(FlavourNotSet) && TemporariesKept(p0, c0, r0) && line == l0
      case Some(GouraudCurvesOrNurbsSurfaces) =>
        && err == Some(CurvesNotSupported) && TemporariesKept(p0, c0, r0)
        && start <= |text| && line == BufferLine(text, start, |text|, l0)
      case Some(Lamp) =>
        && err == None && LampsImported(text, start, n) && TemporariesKept(p0, c0, r0)
        && start <= |text| && line == BufferLine(text, start, |text|, l0)
      case Some(MeshWithColouredFaces) => ColouredFacesImported(text, start, n, p0, c0, r0, l0, err) && NoLights()
      case Some(MeshWithColouredVertices) => ColouredVerticesImported(text, start, n, p0, c0, r0, l0, err) && NoLights()
    }

    /**
     * The line buffer holds what GetNextLine left in it after handing out the
     * lines from start up to the cursor, starting from l0 (see BufferLine).
     */
    ghost predicate LineBuffered(text: seq<Line>, start: nat, l0: Line)
      reads this`buffer, this`line
    {
      start <= buffer <= |text| && line == BufferLine(text, start, buffer, l0)
    }

    /**
     * The temporary positions, colours and mode flag are p0, c0 and r0: the
     * paths that read no vertex block leave them as they found them, for the
     * next file read with this importer.
     */
    ghost predicate TemporariesKept(p0: seq<Vec3>, c0: seq<Colour>, r0: bool)
      reads this`tempPositions, this`tempColors, this`rgbH
    {
      tempPositions == p0 && tempColors == c0 && rgbH == r0
    }

    /** The scene has no light, and no room was made for any: a mesh file never reads lamp records. */
    ghost predicate NoLights()
      reads this`lights, this`lightCapacity
    {
      lights == [] && lightCapacity == 0
    }

    /** The scene holds the one mesh, and the root node lists it. */
    ghost predicate SingleMeshScene()
      reads this`numMeshes, this`rootNode
    {
      numMeshes == 1 && rootNode == Some(Node(ROOT_NODE_NAME, Range(0, 1)))
    }

    /** A new mesh: every face slot empty, no vertex and no colour channel, both cursors at the start. */
    ghost predicate FreshMesh()
      reads this`meshFaces, this`faceSlot, this`meshNumFaces, this`meshVertices, this`vertexSlot
      reads this`meshNumVertices, this`meshHasColours, this`meshColours
    {
      && meshFaces == FRESH_FACES && faceSlot == 0 && meshNumFaces == 0
      && meshVertices == [] && vertexSlot == 0 && meshNumVertices == 0
      && !meshHasColours && meshColours == []
    }

    /**
     * The scene's single mesh is allocated with the fixed number of face
     * slots, and the temporary positions are resized to the element count n.
     */
    method NewMesh(n: nat)
      modifies this`numMeshes, this`meshFaces, this`faceSlot, this`meshNumFaces, this`meshVertices
      modifies this`vertexSlot, this`meshNumVertices, this`meshHasColours, this`meshColours, this`tempPositions
      ensures numMeshes == 1 && FreshMesh() && tempPositions == Resize(old(tempPositions), n, ZERO_VECTOR)
    {
      tempPositions := Resize(tempPositions, n, ZERO_VECTOR);
      numMeshes := 1;
      meshFaces := seq(MAX_FACES, _ => EMPTY_FACE);
      faceSlot := 0;
      meshNumFaces := 0;
      meshVertices := [];
      vertexSlot := 0;
      meshNumVertices := 0;
      meshHasColours := false;
      meshColours := [];
    }

    /** The lamp flavour's scene: the lights of every record after the header, and an empty mesh. */
    ghost predicate LampsImported(text: seq<Line>, start: nat, n: nat)
      reads this
    {
      && SingleMeshScene()
      && lights == Lights(text, start, LampRecordCount(text, start)) && lightCapacity == n
      && meshNumFaces == 0 && meshVertices == [] && !meshHasColours
    }

    /**
     * The lamp flavour after the header: the lamp records, then the empty
     * vertex array, the rewind (to where the lamp loop stopped) and the root
     * node.
     */
    method ImportLamps(text: seq<Line>, n: nat, ghost start: nat, ghost n0: nat)
      requires start == buffer && n0 == n
      requires buffer <= |text| && lights == [] && numMeshes == 1 && FreshMesh()
      requires LampRecordCount(text, buffer) <= n && LampNamesFit(text, buffer, 1)
      modifies this`buffer, this`line, this`sz, this`lights, this`lightCapacity, this`meshVertices
      modifies this`vertexSlot, this`faceSlot, this`rootNode
      ensures LampsImported(text, start, n0) && line == BufferLine(text, start, |text|, old(line))
    {
      InternReadLamp(text, n);
      var mark := buffer;
      AllocateAndRewind(mark);
      InternReadFinish();
    }

    /**
     * The temporary positions after a vertex block of count lines read from
     * line start on, starting from p0: the positions of the lines read, then
     * what p0 held.
     */
    ghost predicate PositionsRead(text: seq<Line>, start: nat, count: nat, p0: seq<Vec3>)
      requires start <= |text|
      reads this`tempPositions
    {
      var vs := VertexBlock(text, start, count);
      && |vs| <= |p0| && |tempPositions| == |p0|
      && (forall k {:trigger ParseVertex(vs[k])} :: 0 <= k < |vs| ==> tempPositions[k] == ParseVertex(vs[k]).position)
      && (forall k :: |vs| <= k < |p0| ==> tempPositions[k] == p0[k])
    }

    /**
     * The coloured-faces flavour's scene: the vertex block read into the
     * temporary positions, then the face block after it read as
     * ColouredFaceBlockRead says.
     */
    ghost predicate ColouredFacesImported(text: seq<Line>, start: nat, n: nat, p0: seq<Vec3>, c0: seq<Colour>,
                                          r0: bool, l0: Line, err: Option<ImportError>)
      reads this
    {
      && start <= |text|
      && PositionsRead(text, start, n, p0)
      && var faceStart := start + VertexLinesRead(text, start, n);
      && ColouredFaceBlockRead(text, faceStart, c0, r0, BufferLine(text, start, faceStart, l0), err)
    }

    /**
     * The face block from line faceStart on, read in the coloured-faces
     * flavour from the colours c0 and the mode flag r0: either the vertex
     * total is 0 modulo 2^32 (no face needs a vertex, or the 32-bit counter
     * wraps to 0) and the import fails, or the faces are read as InternReadcF
     * reads them, with the colour table resized to the face count, and the
     * root node lists the mesh. The failing import leaves the colours and
     * the mode flag alone.
     */
    ghost predicate ColouredFaceBlockRead(text: seq<Line>, faceStart: nat, c0: seq<Colour>, r0: bool,
                                          lf: Line, err: Option<ImportError>)
      reads this
    {
      match err
      case Some(e) =>
        && faceStart <= |text| && e == NoValidFaces
        && TotalIndices(ParsedFaces(text[faceStart..])) % UINT32_MODULUS == 0
        && tempColors == c0 && rgbH == r0
        && line == BufferLine(text, faceStart, |text|, lf)
      case None =>
        && faceStart <= |text|
        && var fs := ParsedFaces(text[faceStart..]);
        && TotalIndices(fs) % UINT32_MODULUS != 0 && SingleMeshScene()
        && meshNumFaces == |fs| && meshNumVertices == TotalIndices(fs)
        && ColouredFacesFilled(text, faceStart, ColourTable(Resize(c0, |fs|, Unset), r0), FRESH_FACES)
    }

    /** The coloured-faces flavour after the header: the vertex block, then the face block. */
    method ImportColouredFaces(text: seq<Line>, n: nat, ghost start: nat, ghost n0: nat, ghost p0: seq<Vec3>,
                               ghost c0: seq<Colour>, ghost r0: bool) returns (err: Option<ImportError>)
      requires start == buffer && n0 == n && p0 == tempPositions && c0 == tempColors && r0 == rgbH
      requires buffer <= |text| && |tempPositions| == n && numMeshes == 1 && FreshMesh()
      requires var faceStart := start + VertexLinesRead(text, start, n0);
        var fs := ParsedFaces(text[faceStart..]);
        && SizingInBounds(text[faceStart..], MAX_FACES) && VertexTotalFits(fs)
        && AllRawsBelow(fs, n) && LastRawsBelow(fs, |fs|)
      modifies this`buffer, this`line, this`sz, this`tempPositions, this`color, this`rgbH, this`tempColors
      modifies this`faceSlot, this`meshNumFaces, this`meshNumVertices, this`meshFaces, this`meshVertices
      modifies this`vertexSlot, this`meshColours, this`meshHasColours, this`rootNode
      ensures PositionsRead(text, start, n0, p0)
      ensures var faceStart := start + VertexLinesRead(text, start, n0);
        ColouredFaceBlockRead(text, faceStart, c0, r0, BufferLine(text, start, faceStart, old(line)), err)
    {
      ReadVertexBlock(text, n, start, n0, p0);
      err := ReadColouredFaceBlock(text, n, start + VertexLinesRead(text, start, n0), c0, r0);
    }

    /** The vertex block from line start on, read by InternReadncV into the temporary positions. */
    method ReadVertexBlock(text: seq<Line>, n: nat, ghost start: nat, ghost n0: nat, ghost p0: seq<Vec3>)
      requires start == buffer <= |text| && n0 == n && p0 == tempPositions && |tempPositions| == n
      modifies this`buffer, this`line, this`sz, this`tempPositions
      ensures buffer == start + VertexLinesRead(text, start, n0) && PositionsRead(text, start, n0, p0)
      ensures line == BufferLine(text, start, buffer, old(line))
    {
      InternReadncV(text, n);
      ghost var vs := VertexBlock(text, start, n0);
      forall k | 0 <= k < |vs|
        ensures tempPositions[k] == ParseVertex(vs[k]).position
      {
        VertexPositionsAt(vs, k);
      }
    }

    /**
     * The coloured-faces face block from the cursor on: the sizing pass and
     * rewind, the faces, and the root node.
     */
    method ReadColouredFaceBlock(text: seq<Line>, n: nat, ghost faceStart: nat, ghost c0: seq<Colour>, ghost r0: bool)
      returns (err: Option<ImportError>)
      requires buffer == faceStart <= |text| && tempColors == c0 && rgbH == r0
      requires |tempPositions| == n && numMeshes == 1 && FreshMesh()
      requires var fs := ParsedFaces(text[faceStart..]);
        && SizingInBounds(text[faceStart..], MAX_FACES) && VertexTotalFits(fs)
        && AllRawsBelow(fs, n) && LastRawsBelow(fs, |fs|)
      modifies this`buffer, this`line, this`sz, this`color, this`rgbH, this`tempColors
      modifies this`faceSlot, this`meshNumFaces, this`meshNumVertices, this`meshFaces, this`meshVertices
      modifies this`vertexSlot, this`meshColours, this`meshHasColours, this`rootNode
      ensures ColouredFaceBlockRead(text, faceStart, c0, r0, old(line), err)
    {
      ghost var fs := ParsedFaces(text[faceStart..]);
      err := SizeMesh(text, faceStart, fs);
      if err.None? {
        FillColouredMesh(text, faceStart, c0, r0, fs);
      }
    }

    /**
     * The faces of the coloured-faces flavour after the sizing pass, read
     * into the new mesh, and the root node.
     */
    method FillColouredMesh(text: seq<Line>, ghost faceStart: nat, ghost c0: seq<Colour>, ghost r0: bool,
                            ghost fs: seq<FaceLine>)
      requires buffer == faceStart <= |text| && tempColors == c0 && rgbH == r0 && numMeshes == 1
      requires fs == ParsedFaces(text[faceStart..])
      requires && meshNumFaces == |fs| <= MAX_FACES && |meshVertices| == meshNumVertices == TotalIndices(fs)
        && |meshFaces| == MAX_FACES && EmptyFrom(meshFaces, |fs|)
        && AllRawsBelow(fs, |tempPositions|) && LastRawsBelow(fs, |fs|)
      requires faceSlot == 0 && vertexSlot == 0 && !meshHasColours
      modifies this`buffer, this`line, this`sz, this`color, this`rgbH, this`tempColors, this`faceSlot
      modifies this`vertexSlot, this`meshColours, this`meshHasColours, this`meshFaces, this`meshVertices
      modifies this`rootNode
      ensures ColouredFacesFilled(text, faceStart, ColourTable(Resize(c0, |fs|, Unset), r0), FRESH_FACES)
      ensures SingleMeshScene()
    {
      ghost var sized := meshFaces;
      InternReadcF(text, meshNumFaces);
      ColouredFacesFromFresh(text, faceStart, ColourTable(Resize(c0, |fs|, Unset), r0), sized);
      InternReadFinish();
      assert rootNode == Some(Node(ROOT_NODE_NAME, Range(0, numMeshes)));
    }

    /** The coloured-faces end state does not depend on what the face slots past the faces held, only on their number. */
    lemma ColouredFacesFromFresh(text: seq<Line>, start: nat, st0: ColourTable, faces0: seq<Face>)
      requires ColouredFacesFilled(text, start, st0, faces0)
      requires |faces0| == MAX_FACES && EmptyFrom(faces0, |ParsedFaces(text[start..])|)
      ensures ColouredFacesFilled(text, start, st0, FRESH_FACES)
    {
      assert FaceMeshFilled(text, start, FRESH_FACES);
    }

    /**
     * The temporary colours and the mode flag after a coloured vertex block
     * of count lines read from line start on, starting from c0 and r0: the
     * colours resized to count, each line's token stored at its index, and
     * the mode flag as the lines' tokens, read in order, leave it.
     */
    ghost predicate VertexColoursRead(text: seq<Line>, start: nat, count: nat, c0: seq<Colour>, r0: bool)
      requires start <= |text| && VertexColoursReadable(VertexBlock(text, start, count))
      reads this`tempColors, this`rgbH
    {
      var vs := VertexBlock(text, start, count);
      var init := Resize(c0, count, Unset);
      && |tempColors| == count
      && (forall k {:trigger VertexToken(vs[k])} :: 0 <= k < |vs| ==> tempColors[k] == ColourOr(VertexToken(vs[k]), init[k]))
      && (forall k :: |vs| <= k < count ==> tempColors[k] == init[k])
      && (forall ts {:trigger TokensOf(vs, ts)} :: TokensOf(vs, ts) ==> rgbH == TokensMode(r0, ts))
    }

    /**
     * The coloured-vertices flavour's scene: the vertex block read into the
     * temporary positions and colours, then the face block after it read as
     * VertexColouredFaceBlockRead says.
     */
    ghost predicate ColouredVerticesImported(text: seq<Line>, start: nat, n: nat, p0: seq<Vec3>, c0: seq<Colour>,
                                             r0: bool, l0: Line, err: Option<ImportError>)
      reads this
    {
      && start <= |text| && VertexColoursReadable(VertexBlock(text, start, n))
      && PositionsRead(text, start, n, p0) && VertexColoursRead(text, start, n, c0, r0)
      && var faceStart := start + VertexLinesRead(text, start, n);
      && VertexColouredFaceBlockRead(text, faceStart, BufferLine(text, start, faceStart, l0), err)
    }

    /**
     * The face block from line faceStart on, read in the coloured-vertices
     * flavour: either the vertex total is 0 modulo 2^32 (no face needs a
     * vertex, or the 32-bit counter wraps to 0) and the import fails, or the
     * faces are read as InternReadncF reads them, and the root node lists the
     * mesh.
     */
    ghost predicate VertexColouredFaceBlockRead(text: seq<Line>, faceStart: nat, lf: Line, err: Option<ImportError>)
      reads this
    {
      match err
      case Some(e) =>
        && faceStart <= |text| && e == NoValidFaces
        && TotalIndices(ParsedFaces(text[faceStart..])) % UINT32_MODULUS == 0
        && line == BufferLine(text, faceStart, |text|, lf)
      case None =>
        && faceStart <= |text|
        && var fs := ParsedFaces(text[faceStart..]);
        && TotalIndices(fs) % UINT32_MODULUS != 0 && SingleMeshScene()
        && meshNumFaces == |fs| && meshNumVertices == TotalIndices(fs)
        && VertexColouredFacesFilled(text, faceStart, FRESH_FACES)
    }

    /** The coloured-vertices flavour after the header: the coloured vertex block, then the face block. */
    method ImportColouredVertices(text: seq<Line>, n: nat, ghost start: nat, ghost n0: nat, ghost p0: seq<Vec3>,
                                  ghost c0: seq<Colour>, ghost r0: bool) returns (err: Option<ImportError>)
      requires start == buffer && n0 == n && p0 == tempPositions && c0 == tempColors && r0 == rgbH
      requires buffer <= |text| && |tempPositions| == n && numMeshes == 1 && FreshMesh()
      requires VertexColoursReadable(VertexBlock(text, start, n0))
      requires var faceStart := start + VertexLinesRead(text, start, n0);
        var fs := ParsedFaces(text[faceStart..]);
        && SizingInBounds(text[faceStart..], MAX_FACES) && VertexTotalFits(fs)
        && AllRawsBelow(fs, n)
      modifies this`buffer, this`line, this`sz, this`tempPositions, this`color, this`rgbH, this`tempColors
      modifies this`faceSlot, this`meshNumFaces, this`meshNumVertices, this`meshFaces, this`meshVertices
      modifies this`vertexSlot, this`meshColours, this`meshHasColours, this`rootNode
      ensures PositionsRead(text, start, n0, p0)
      ensures VertexColoursRead(text, start, n0, c0, r0)
      ensures var faceStart := start + VertexLinesRead(text, start, n0);
        VertexColouredFaceBlockRead(text, faceStart, BufferLine(text, start, faceStart, old(line)), err)
    {
      ReadColouredVertexBlock(text, n, start, n0, p0, c0, r0);
      err := ReadVertexColouredFaceBlock(text, n, start + VertexLinesRead(text, start, n0));
    }

    /** The coloured vertex block from line start on, read by InternReadcV into the temporary positions and colours. */
    method ReadColouredVertexBlock(text: seq<Line>, n: nat, ghost start: nat, ghost n0: nat, ghost p0: seq<Vec3>,
                                   ghost c0: seq<Colour>, ghost r0: bool)
      requires start == buffer <= |text| && n0 == n && p0 == tempPositions && c0 == tempColors && r0 == rgbH
      requires |tempPositions| == n && VertexColoursReadable(VertexBlock(text, start, n0))
      modifies this`buffer, this`line, this`sz, this`tempPositions, this`tempColors, this`rgbH, this`color
      ensures buffer == start + VertexLinesRead(text, start, n0)
      ensures |tempPositions| == |tempColors| == n
      ensures PositionsRead(text, start, n0, p0) && VertexColoursRead(text, start, n0, c0, r0)
      ensures line == BufferLine(text, start, buffer, old(line))
    {
      InternReadcV(text, n);
      ghost var vs := VertexBlock(text, start, n0);
      forall k | 0 <= k < |vs|
        ensures tempPositions[k] == ParseVertex(vs[k]).position
        ensures tempColors[k] == ColourOr(VertexToken(vs[k]), Resize(c0, n0, Unset)[k])
      {
        VertexPositionsAt(vs, k);
        VertexTokensAt(vs, k);
      }
      forall ts | TokensOf(vs, ts)
        ensures rgbH == TokensMode(r0, ts)
      {
        TokensOfAreVertexTokens(vs, ts);
      }
    }

    /**
     * The coloured-vertices face block from the cursor on: the sizing pass
     * and rewind, the faces, and the root node.
     */
    method ReadVertexColouredFaceBlock(text: seq<Line>, n: nat, ghost faceStart: nat) returns (err: Option<ImportError>)
      requires buffer == faceStart <= |text|
      requires |tempPositions| == n && |tempColors| == n && numMeshes == 1 && FreshMesh()
      requires var fs := ParsedFaces(text[faceStart..]);
        && SizingInBounds(text[faceStart..], MAX_FACES) && VertexTotalFits(fs)
        && AllRawsBelow(fs, n)
      modifies this`buffer, this`line, this`sz, this`faceSlot, this`meshNumFaces, this`meshNumVertices
      modifies this`meshFaces, this`meshVertices, this`vertexSlot, this`meshColours, this`meshHasColours
      modifies this`rootNode
      ensures VertexColouredFaceBlockRead(text, faceStart, old(line), err)
    {
      ghost var fs := ParsedFaces(text[faceStart..]);
      err := SizeMesh(text, faceStart, fs);
      if err.None? {
        FillVertexColouredMesh(text, faceStart, fs);
      }
    }

    /**
     * The faces of the coloured-vertices flavour after the sizing pass, read
     * into the new mesh, and the root node.
     */
    method FillVertexColouredMesh(text: seq<Line>, ghost faceStart: nat, ghost fs: seq<FaceLine>)
      requires buffer == faceStart <= |text| && numMeshes == 1 && fs == ParsedFaces(text[faceStart..])
      requires && meshNumFaces == |fs| <= MAX_FACES && |meshVertices| == meshNumVertices == TotalIndices(fs)
        && |meshFaces| == MAX_FACES && EmptyFrom(meshFaces, |fs|)
        && AllRawsBelow(fs, |tempPositions|) && AllRawsBelow(fs, |tempColors|)
      requires faceSlot == 0 && vertexSlot == 0 && !meshHasColours
      modifies this`buffer, this`line, this`sz, this`faceSlot, this`vertexSlot
      modifies this`meshColours, this`meshHasColours, this`meshFaces, this`meshVertices, this`rootNode
      ensures VertexColouredFacesFilled(text, faceStart, FRESH_FACES)
      ensures SingleMeshScene()
    {
      ghost var sized := meshFaces;
      InternReadncF(text, meshNumFaces);
      VertexColouredFromFresh(text, faceStart, sized);
      InternReadFinish();
      assert rootNode == Some(Node(ROOT_NODE_NAME, Range(0, numMeshes)));
    }

    /** The coloured-vertices end state does not depend on what the face slots past the faces held, only on their number. */
    lemma VertexColouredFromFresh(text: seq<Line>, start: nat, faces0: seq<Face>)
      requires VertexColouredFacesFilled(text, start, faces0)
      requires |faces0| == MAX_FACES && EmptyFrom(faces0, |ParsedFaces(text[start..])|)
      ensures VertexColouredFacesFilled(text, start, FRESH_FACES)
    {
      assert FaceMeshFilled(text, start, FRESH_FACES);
    }

    /**
     * The sizing pass and rewind of InternReadFile: the face lines are
     * counted from the cursor on; when the 32-bit vertex counter ends at 0
     * (no face line counts, or the total wraps to 0) the import fails with no
     * valid faces, otherwise the vertices are allocated and the line and face
     * cursors return to the first face line and the first face slot.
     */
    method SizeMesh(text: seq<Line>, ghost faceStart: nat, ghost fs: seq<FaceLine>) returns (err: Option<ImportError>)
      requires buffer == faceStart <= |text| && fs == ParsedFaces(text[faceStart..]) && FreshMesh()
      requires SizingInBounds(text[faceStart..], MAX_FACES) && VertexTotalFits(fs)
      modifies this`buffer, this`line, this`sz, this`faceSlot, this`meshNumFaces, this`meshNumVertices
      modifies this`meshFaces, this`meshVertices, this`vertexSlot
      ensures err.Some? <==> TotalIndices(fs) % UINT32_MODULUS == 0
      ensures err.Some? ==> err == Some(NoValidFaces)
      ensures err.None? ==>
              && buffer == faceStart && faceSlot == 0 && vertexSlot == 0
              && meshNumFaces == |fs| <= MAX_FACES && |meshVertices| == meshNumVertices == TotalIndices(fs)
              && |meshFaces| == MAX_FACES && EmptyFrom(meshFaces, |fs|)
      ensures line == BufferLine(text, faceStart, |text|, old(line))
    {
      var mark := buffer;
      SizedFacesFit(text[buffer..], MAX_FACES);
      ParsedFacesCountsMatch(text[buffer..], |text[buffer..]|);
      CountFaces(text);
      if meshNumVertices == 0 {
        return Some(NoValidFaces);
      }
      ModBelow(TotalIndices(fs), UINT32_MODULUS);
      AllocateAndRewind(mark);
      return None;
    }

    /**
     * The step every flavour takes after its body: the vertex array gets one
     * (zero) vertex per counted vertex use, the line cursor returns to mark
     * and the face cursor to the first face slot.
     */
    method AllocateAndRewind(mark: nat)
      modifies this`meshVertices, this`vertexSlot, this`buffer, this`faceSlot
      ensures |meshVertices| == meshNumVertices && vertexSlot == 0 && buffer == mark && faceSlot == 0
    {
      meshVertices := seq(meshNumVertices, _ => ZERO_VECTOR);
      vertexSlot := 0;
      buffer := mark;
      faceSlot := 0;
    }
  }
}
