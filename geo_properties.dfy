// Properties of the pure descriptions in GeoFormat: what the header loop
// accepts and selects, how faces are laid out in the expanded vertex buffer,
// how colours propagate, and how lamp names encode their record.
module GeoProperties {
  import opened ParsingUtils
  import opened GeoHelper
  import opened GeoFormat

  // =====================================================================
  // Header

  /**
   * The header loop stops at the first line that is not a header line, which
   * holds the element count; it fails on the first unrecognised signature, and
   * reports a missing count exactly when the input ends inside the header.
   */
  lemma {:induction false} ScanHeaderOutcome(ls: seq<Line>, flav: Option<Flavor>, k: nat)
    requires k < |ls|
    ensures var h := ScanHeader(ls, flav, k);
      && (forall j :: k <= j < h.last ==> IsHeaderLine(ls[j]) && Recognised(ls[j]))
      && (h.count.Success? <==> !IsHeaderLine(ls[h.last]))
      && (h.count.Success? ==> h.count.value == LeadingNumber(ls[h.last]))
      && (h.count == Failure(UnknownFileVersion) <==> IsHeaderLine(ls[h.last]) && !Recognised(ls[h.last]))
      && (h.count == Failure(MissingElementCount) <==>
            IsHeaderLine(ls[h.last]) && Recognised(ls[h.last]) && h.last == |ls| - 1)
    decreases |ls| - k
  {
    var l := ls[k];
    if IsHeaderLine(l) && Recognised(l) && k + 1 < |ls| {
      var f := SelectFlavour(flav, l).value;
      ScanHeaderOutcome(ls, f, k + 1);
    }
  }

  /** A line in front of a sequence only decides when no later line selects. */
  lemma {:induction false} LastSelectedCons(x: Line, rest: seq<Line>)
    ensures LastSelected([x] + rest)
      == if LastSelected(rest).Some? then LastSelected(rest) else SelectedBy(x)
    decreases |rest|
  {
    var s := [x] + rest;
    if |rest| > 0 {
      assert s[..|s| - 1] == [x] + rest[..|rest| - 1];
      assert s[|s| - 1] == rest[|rest| - 1];
      LastSelectedCons(x, rest[..|rest| - 1]);
    } else {
      assert s[..|s| - 1] == [];
    }
  }

  /** After the header, the flavour is the one named by the last selecting line, or the previous one if none selects. */
  lemma {:induction false} ScanHeaderFlavour(ls: seq<Line>, flav: Option<Flavor>, k: nat)
    requires k < |ls|
    ensures var h := ScanHeader(ls, flav, k);
      var sel := LastSelected(ls[k..h.last + 1]);
      h.flav == if sel.Some? then sel else flav
    decreases |ls| - k
  {
    var l := ls[k];
    var h := ScanHeader(ls, flav, k);
    LastSelectedCons(l, []);
    assert [l] + [] == [l];
    if IsHeaderLine(l) && Recognised(l) && k + 1 < |ls| {
      var f := SelectFlavour(flav, l).value;
      ScanHeaderFlavour(ls, f, k + 1);
      LastSelectedCons(l, ls[k + 1..h.last + 1]);
      assert ls[k..h.last + 1] == [l] + ls[k + 1..h.last + 1];
    } else {
      assert ls[k..h.last + 1] == [l];
    }
  }

  lemma {:induction false} LastSelectedNeverCurves(ls: seq<Line>)
    ensures LastSelected(ls) != Some(GouraudCurvesOrNurbsSurfaces)
  {
    if |ls| > 0 {
      LastSelectedNeverCurves(ls[..|ls| - 1]);
    }
  }

  /** No signature selects the curve and surface flavour: its reader is never dispatched to by a header. */
  lemma ScanHeaderNeverSelectsCurves(ls: seq<Line>, flav: Option<Flavor>, k: nat)
    requires k < |ls| && flav != Some(GouraudCurvesOrNurbsSurfaces)
    ensures ScanHeader(ls, flav, k).flav != Some(GouraudCurvesOrNurbsSurfaces)
  {
    var h := ScanHeader(ls, flav, k);
    ScanHeaderFlavour(ls, flav, k);
    LastSelectedNeverCurves(ls[k..h.last + 1]);
  }

  // ---------------------------------------------------------------------
  // The header loop as written

  /** The header loop's variables: the flavour, the line buffer and the read cursor. */
  datatype LoopState = LoopState(flav: Option<Flavor>, line: Line, cursor: nat)

  /**
   * One iteration of the header loop as written: the switch, then GetNextLine,
   * which at the end of the input reports failure (ignored here) and leaves the
   * line buffer as it was.
   */
  function HeaderLoopStep(text: seq<Line>, s: LoopState): (r: Result<LoopState>)
    requires IsHeaderLine(s.line)
    ensures r.Success? ==> r.value.cursor >= s.cursor
  {
    match SelectFlavour(s.flav, s.line)
    case Failure(e) => Failure(e)
    case Success(f) =>
      if s.cursor < |text| then Success(LoopState(f, text[s.cursor], s.cursor + 1))
      else Success(LoopState(f, s.line, s.cursor))
  }

  /**
   * Once the input is exhausted while the buffer holds a recognised header
   * line, the loop condition stays true and the state stops changing after one
   * more step: the loop never terminates.
   */
  lemma HeaderLoopStallsAtEndOfInput(text: seq<Line>, s: LoopState)
    requires s.cursor >= |text| && IsHeaderLine(s.line) && Recognised(s.line)
    ensures HeaderLoopStep(text, s).Success?
    ensures var s' := HeaderLoopStep(text, s).value;
      && s'.line == s.line && s'.cursor == s.cursor
      && IsHeaderLine(s'.line)
      && HeaderLoopStep(text, s') == Success(s')
  {
    var f := SelectFlavour(s.flav, s.line).value;
  }

  /** A file consisting of the signature line "3DG1" alone keeps the loop spinning. */
  lemma HeaderLoopHangsOnSignatureOnlyFile()
    ensures var text := ["3DG1"];
      var s0 := LoopState(None, text[0], 1);
      var s1 := LoopState(Some(MeshWithColouredFaces), "3DG1", 1);
      && HeaderLoopStep(text, s0) == Success(s1)
      && IsHeaderLine(s1.line)
      && HeaderLoopStep(text, s1) == Success(s1)
  {
    var l: Line := "3DG1";
    assert At(l, 0) == '3' && At(l, 1) == 'D' && At(l, 3) == '1';
  }

  /** The corrected header reader ends the same file with an error instead. */
  lemma ScanHeaderRejectsSignatureOnlyFile()
    ensures ScanHeader(["3DG1"], None, 0)
      == HeaderScan(Some(MeshWithColouredFaces), 0, Failure(MissingElementCount))
  {
    var l: Line := "3DG1";
    assert At(l, 0) == '3' && At(l, 1) == 'D' && At(l, 3) == '1';
  }

  // =====================================================================
  // Colours

  /**
   * LookupColor in hexadecimal mode unpacks three channels that pack back into
   * the value's low 24 bits; in table mode it keeps the low nibble.
   */
  lemma LookupColorChannels(colourIndex: nat, rgbH: bool)
    ensures var c := LookupColor(colourIndex, rgbH);
      && (rgbH ==> c.Rgb? && c.r < 256 && c.g < 256 && c.b < 256
                   && PackRgb(c.r, c.g, c.b) == colourIndex % 0x100_0000)
      && (!rgbH ==> c.TableEntry? && c.index < 16 && (colourIndex - c.index) % 16 == 0)
  {
    if rgbH {
      UnpackedRgbPacks(colourIndex);
    }
  }

  /** In table mode only the low nibble of the colour index matters. */
  lemma LookupColorLowNibble(a: nat, b: nat)
    requires a % 16 == b % 16
    ensures LookupColor(a, false) == LookupColor(b, false)
  {
  }

  /** In hexadecimal mode a colour packed as 0xRRGGBB unpacks to its own channels. */
  lemma LookupColorUnpacksRgb(r: nat, g: nat, b: nat)
    requires r < 256 && g < 256 && b < 256
    ensures LookupColor(PackRgb(r, g, b), true) == Rgb(r, g, b)
  {
    var v := PackRgb(r, g, b);
    assert v / 0x1_0000 == r by {
      assert v == r * 0x1_0000 + (g * 0x100 + b);
      assert g * 0x100 + b < 0x1_0000;
    }
    assert v / 0x100 == r * 0x100 + g by {
      assert v == (r * 0x100 + g) * 0x100 + b;
    }
    assert v % 0x100 == b by {
      assert v == (r * 0x100 + g) * 0x100 + b;
    }
    assert (r * 0x100 + g) % 0x100 == g;
  }

  // =====================================================================
  // Vertex blocks

  lemma {:induction false} VertexPositionsAt(vs: seq<Line>, k: nat)
    requires k < |vs|
    ensures VertexPositions(vs)[k] == ParseVertex(vs[k]).position
    decreases k
  {
    if k > 0 {
      VertexPositionsAt(vs[1..], k - 1);
    }
  }

  lemma {:induction false} VertexTokensAt(vs: seq<Line>, k: nat)
    requires VertexColoursReadable(vs) && k < |vs|
    ensures VertexTokens(vs)[k] == VertexToken(vs[k])
    decreases k
  {
    if k > 0 {
      VertexTokensAt(vs[1..], k - 1);
    }
  }

  /** The mode flag after one more token is the mode that token leaves. */
  lemma TokensModeStep(r: bool, ts: seq<ColourToken>, i: nat)
    requires i < |ts|
    ensures TokensMode(r, ts[..i + 1]) == TokenMode(ts[i], TokensMode(r, ts[..i]))
  {
    assert ts[..i + 1][..i] == ts[..i];
  }

  /** When no colour token of a block can be read, the block leaves the mode flag as it found it. */
  lemma {:induction false} TokensModeKeptByUnreadable(r: bool, ts: seq<ColourToken>)
    requires forall k :: 0 <= k < |ts| ==> ts[k] == Unreadable
    ensures TokensMode(r, ts) == r
  {
    if |ts| > 0 {
      var init := ts[..|ts| - 1];
      assert forall k :: 0 <= k < |init| ==> init[k] == ts[k];
      TokensModeKeptByUnreadable(r, init);
    }
  }

  /** Once a token of a block has been read, the flag the block started with no longer matters. */
  lemma {:induction false} TokensModeForgetsStart(r1: bool, r2: bool, ts: seq<ColourToken>, k: nat)
    requires k < |ts| && ts[k] != Unreadable
    ensures TokensMode(r1, ts) == TokensMode(r2, ts)
  {
    var init := ts[..|ts| - 1];
    assert forall j :: 0 <= j < |init| ==> init[j] == ts[j];
    if k < |ts| - 1 && ts[|ts| - 1] == Unreadable {
      TokensModeForgetsStart(r1, r2, init, k);
    }
  }

  /** The flag names the reader of the last readable token: hexadecimal exactly when that token is. */
  lemma {:induction false} TokensModeIsLastReadable(r: bool, ts: seq<ColourToken>, k: nat)
    requires k < |ts| && ts[k] != Unreadable
    requires forall j :: k < j < |ts| ==> ts[j] == Unreadable
    ensures TokensMode(r, ts) <==> ts[k].HexToken?
  {
    var init := ts[..|ts| - 1];
    assert forall j :: 0 <= j < |init| ==> init[j] == ts[j];
    if k < |ts| - 1 {
      TokensModeIsLastReadable(r, init, k);
    }
  }

  // =====================================================================
  // Face lines

  /** Reading fewer indices reads a prefix of the same indices. */
  lemma {:induction false} ReadIndicesPrefix(l: Line, start: nat, m: nat, n: nat)
    requires start <= |l| && m <= n
    ensures forall k :: 0 <= k < m ==> ReadIndices(l, start, m).raws[k] == ReadIndices(l, start, n).raws[k]
    decreases n
  {
    if m < n {
      ReadIndicesPrefix(l, start, m, n - 1);
      var r := ReadIndices(l, start, n);
      var p := ReadIndices(l, start, n - 1);
      var q := ReadIndices(l, start, m);
      assert r.raws == p.raws + [r.raws[n - 1]];
      forall k | 0 <= k < m
        ensures q.raws[k] == r.raws[k]
      {
        assert q.raws[k] == p.raws[k];
      }
    }
  }

  /** Counting more lines of a block counts at least as many. */
  lemma {:induction false} CountedGrow(b: seq<Line>, j: nat, n: nat)
    requires j <= n <= |b|
    ensures CountedBefore(b, j) <= CountedBefore(b, n)
    decreases n
  {
    if j < n {
      CountedGrow(b, j, n - 1);
    }
  }

  /**
   * Line j of a block, when it counts, is the next face after the faces of
   * the lines before it, in the faces of any longer part of the block.
   */
  lemma {:induction false} FacesBeforeAt(b: seq<Line>, n: nat, j: nat)
    requires j < n <= |b| && LeadingNumber(b[j]) != 0
    ensures CountedBefore(b, j) < |FacesBefore(b, n)| && FacesBefore(b, n)[CountedBefore(b, j)] == ParseFace(b[j])
    decreases n
  {
    var prev := FacesBefore(b, n - 1);
    if j < n - 1 {
      FacesBeforeAt(b, n - 1, j);
      assert FacesBefore(b, n)[CountedBefore(b, j)] == prev[CountedBefore(b, j)];
    } else {
      assert |prev| == CountedBefore(b, j);
    }
  }

  /** A block whose sizing pass writes only inside slots face slots has at most slots faces. */
  lemma SizedFacesFit(b: seq<Line>, slots: nat)
    requires SizingInBounds(b, slots)
    ensures |ParsedFaces(b)| <= slots
  {
  }

  /** Adding to a counter that wraps at m. */
  lemma ModAdd(a: nat, n: nat, m: nat)
    requires m > 0
    ensures (a % m + n) % m == (a + n) % m
  {
    var y := a % m + n;
    DivModUnique(a + n, m, a / m + y / m, y % m);
  }

  /** A counter below its modulus has not wrapped. */
  lemma ModBelow(a: nat, m: nat)
    requires a < m
    ensures a % m == a
  {
    DivModUnique(a, m, 0, a);
  }

  predicate CountsMatch(fs: seq<FaceLine>)
  {
    forall k :: 0 <= k < |fs| ==> |fs[k].raws| == fs[k].count && fs[k].count >= 1
  }

  /** Every parsed face reads as many raw indices as its leading number, at least one. */
  lemma {:induction false} ParsedFacesCountsMatch(b: seq<Line>, n: nat)
    requires n <= |b|
    ensures CountsMatch(FacesBefore(b, n))
  {
    if n > 0 {
      ParsedFacesCountsMatch(b, n - 1);
    }
  }

  /**
   * Every face uses at least one vertex, so no vertex is needed exactly when
   * no face line counts: the "no valid faces" error.
   */
  lemma {:induction false} TotalIndicesZero(fs: seq<FaceLine>, n: nat)
    requires CountsMatch(fs) && n <= |fs|
    ensures IndicesBefore(fs, n) >= n
    ensures IndicesBefore(fs, n) == 0 <==> n == 0
  {
    if n > 0 {
      TotalIndicesZero(fs, n - 1);
    }
  }

  /** Face k's expanded vertices lie inside those of the first n faces when k < n. */
  lemma {:induction false} IndicesBeforeGrow(fs: seq<FaceLine>, k: nat, n: nat)
    requires k < n <= |fs|
    ensures IndicesBefore(fs, k) + fs[k].count <= IndicesBefore(fs, n)
    decreases n
  {
    if k < n - 1 {
      IndicesBeforeGrow(fs, k, n - 1);
    }
  }

  /** There is one raw index per expanded vertex. */
  lemma {:induction false} ExpandedRawsLength(fs: seq<FaceLine>, n: nat)
    requires CountsMatch(fs) && n <= |fs|
    ensures |RawsBefore(fs, n)| == IndicesBefore(fs, n)
  {
    if n > 0 {
      ExpandedRawsLength(fs, n - 1);
    }
  }

  /** Every expanded vertex refers to a raw vertex below the bound the faces' indices respect. */
  lemma {:induction false} ExpandedRawsBelow(fs: seq<FaceLine>, n: nat, bound: nat)
    requires AllRawsBelow(fs, bound) && n <= |fs|
    ensures forall j :: 0 <= j < |RawsBefore(fs, n)| ==> RawsBefore(fs, n)[j] < bound
  {
    if n > 0 {
      ExpandedRawsBelow(fs, n - 1, bound);
      assert RawsBelow(fs[n - 1], bound);
    }
  }

  /** The raw indices of face k follow those of the faces before it in the expanded order. */
  lemma {:induction false} ExpandedRawsAt(fs: seq<FaceLine>, n: nat, k: nat, m: nat)
    requires CountsMatch(fs) && k < n <= |fs| && m < fs[k].count
    ensures IndicesBefore(fs, k) + m < |RawsBefore(fs, n)|
    ensures RawsBefore(fs, n)[IndicesBefore(fs, k) + m] == fs[k].raws[m]
    decreases n
  {
    ExpandedRawsLength(fs, n - 1);
    if k < n - 1 {
      ExpandedRawsAt(fs, n - 1, k, m);
    }
  }

  /** All index lists of a face sequence, concatenated. */
  function AllIndices(faces: seq<Face>): seq<nat>
  {
    if |faces| == 0 then [] else AllIndices(faces[..|faces| - 1]) + faces[|faces| - 1].indices
  }

  /**
   * The faces use the expanded vertices 0, 1, 2, ... in order, each exactly
   * once: face k owns count_k consecutive indices starting where face k-1's end.
   */
  lemma {:induction false} FaceRecordsCoverExpandedVertices(fs: seq<FaceLine>, n: nat)
    requires n <= |fs|
    ensures AllIndices(RecordsBefore(fs, n)) == Range(0, IndicesBefore(fs, n))
  {
    if n > 0 {
      FaceRecordsCoverExpandedVertices(fs, n - 1);
      var r := RecordsBefore(fs, n);
      assert r[..|r| - 1] == RecordsBefore(fs, n - 1);
      assert Range(0, IndicesBefore(fs, n - 1)) + Range(IndicesBefore(fs, n - 1), fs[n - 1].count)
          == Range(0, IndicesBefore(fs, n));
    }
  }

  /** Face k of the output records its own index count and starts after the indices of the faces before it. */
  lemma {:induction false} FaceRecordAt(fs: seq<FaceLine>, n: nat, k: nat)
    requires k < n <= |fs|
    ensures RecordsBefore(fs, n)[k] == Face(fs[k].count, Range(IndicesBefore(fs, k), fs[k].count))
    decreases n
  {
    if k < n - 1 {
      FaceRecordAt(fs, n - 1, k);
    }
  }

  // ---------------------------------------------------------------------
  // Face colours

  /** Face f stores its colour token at index pos. */
  predicate Writes(f: FaceLine, pos: nat)
  {
    |f.raws| > 0 && LastRaw(f) == pos && TokenColour(f.colour).Some?
  }

  /** Face colours are sticky: while no face stores a colour at pos, entry pos keeps its earlier value. */
  lemma {:induction false} FaceColourKept(st: ColourTable, fs: seq<FaceLine>, n: nat, pos: nat)
    requires LastRawsBelow(fs, |st.entries|) && n <= |fs| && pos < |st.entries|
    requires forall j :: 0 <= j < n ==> !Writes(fs[j], pos)
    ensures ColoursBefore(st, fs, n).0.entries[pos] == st.entries[pos]
  {
    if n > 0 {
      FaceColourKept(st, fs, n - 1, pos);
    }
  }

  /**
   * After the first n faces, entry pos holds the colour of the last face that
   * stored a readable token there.
   */
  lemma {:induction false} FaceColourIsLatestStored(st: ColourTable, fs: seq<FaceLine>, n: nat, pos: nat, j: nat)
    requires LastRawsBelow(fs, |st.entries|) && n <= |fs| && pos < |st.entries|
    requires j < n && Writes(fs[j], pos)
    requires forall j' :: j < j' < n ==> !Writes(fs[j'], pos)
    ensures ColoursBefore(st, fs, n).0.entries[pos] == TokenColour(fs[j].colour).value
    decreases n
  {
    if j < n - 1 {
      FaceColourIsLatestStored(st, fs, n - 1, pos, j);
    }
  }

  /** There is one colour per expanded vertex. */
  lemma {:induction false} FaceColoursLength(st: ColourTable, fs: seq<FaceLine>, n: nat)
    requires LastRawsBelow(fs, |st.entries|) && n <= |fs|
    ensures |ColoursBefore(st, fs, n).1| == IndicesBefore(fs, n)
  {
    if n > 0 {
      FaceColoursLength(st, fs, n - 1);
    }
  }

  /**
   * Every expanded vertex of face k takes the colour stored at the face's last
   * raw index just after the face was read, whatever the faces after it store.
   */
  lemma {:induction false} FaceColoursAt(st: ColourTable, fs: seq<FaceLine>, n: nat, k: nat, m: nat)
    requires LastRawsBelow(fs, |st.entries|) && k < n <= |fs| && m < fs[k].count
    ensures IndicesBefore(fs, k) + m < |ColoursBefore(st, fs, n).1|
    ensures ColoursBefore(st, fs, n).1[IndicesBefore(fs, k) + m]
      == ColoursBefore(st, fs, k + 1).0.entries[LastRaw(fs[k])]
    decreases n
  {
    FaceColoursLength(st, fs, n - 1);
    if k < n - 1 {
      FaceColoursAt(st, fs, n - 1, k, m);
    }
  }

  /** A counted line starts with a digit, so the colour token after its indices can be read. */
  lemma FaceColourTokenReadable(l: Line)
    requires LeadingNumber(l) != 0
    ensures Strtoul10(l, 0).end >= 1
    ensures ColourTokenReadable(l, ReadIndices(l, Strtoul10(l, 0).end, LeadingNumber(l)).end)
  {
    var r := ReadIndices(l, Strtoul10(l, 0).end, LeadingNumber(l));
    assert Strtoul10(l, SkipSpaces(l, r.end)).end >= r.end;
  }

  // =====================================================================
  // End of the fill pass

  /** If line j-1 counts and none of lines j to n-1 does, the fill pass over the first n lines stops right after line j-1. */
  lemma {:induction false} EndOfCountedAt(b: seq<Line>, n: nat, j: nat)
    requires j <= n <= |b|
    requires j == 0 || LeadingNumber(b[j - 1]) != 0
    requires CountedBefore(b, j) == CountedBefore(b, n)
    ensures EndBefore(b, n) == j
    decreases n
  {
    if j < n {
      CountedGrow(b, j, n - 1);
      EndOfCountedAt(b, n - 1, j);
    }
  }

  // =====================================================================
  // Lamps

  lemma {:induction false} FormatDecimalShort(n: nat)
    requires n <= 9999
    ensures |FormatDecimal(n)| <= 4
  {
    if n >= 10 {
      FormatDecimalShort(n / 10);
      if n >= 1000 {
        assert FormatDecimal(n / 10) == FormatDecimal(n / 100) + [DECIMAL_DIGITS[(n / 10) % 10]];
        FormatDecimalShort(n / 100);
        assert |FormatDecimal(n / 100)| <= 2 by {
          assert n / 100 <= 99;
          if n / 100 >= 10 {
            assert n / 1000 < 10;
          }
        }
      }
    }
  }

  /**
   * A lamp name reads back as its record: "Lamp", then the ordinal in four
   * decimal digits (for ordinals up to 9999), then the lamp type in
   * hexadecimal.
   */
  lemma LampNameRoundTrip(ordinal: nat, sourceType: nat)
    requires ordinal <= 9999
    ensures var name := LampName(ordinal, sourceType);
      && |name| >= 12
      && name[..4] == "Lamp"
      && AllDigits(name[4..8]) && DecimalValue(name[4..8]) == ordinal
      && AllHexDigits(name[8..]) && HexValue(name[8..]) == sourceType
  {
    var name := LampName(ordinal, sourceType);
    var d := PadZeros(FormatDecimal(ordinal), 4);
    var h := PadZeros(FormatHex(sourceType), 4);
    FormatDecimalShort(ordinal);
    FormatDecimalRoundTrip(ordinal);
    FormatHexRoundTrip(sourceType);
    DecimalValueZeroPadded(FormatDecimal(ordinal), 4);
    HexValueZeroPadded(FormatHex(sourceType), 4);
    assert name == "Lamp" + d + h;
    assert name[4..8] == d;
    assert name[8..] == h;
  }

  /**
   * Record k of the lamp block from line start on starts inside the input,
   * and the next record starts inside the input exactly when there is one.
   */
  lemma LampLoopStep(text: seq<Line>, start: nat, k: nat)
    requires k < LampRecordCount(text, start)
    ensures start + 5 * k < |text|
    ensures start + 5 * (k + 1) < |text| <==> k + 1 < LampRecordCount(text, start)
  {
  }

  /** After the five lines of the record starting at line c the cursor stands past its last line read. */
  lemma RecordEnd(text: seq<Line>, c: nat)
    requires c < |text|
    ensures RecordCursor(text, c, 4) == if c + 5 < |text| then c + 5 else |text|
    ensures 0 < RecordCursor(text, c, 4) <= |text|
    ensures RecordLine(text, c, 4) == text[RecordCursor(text, c, 4) - 1]
  {
  }

  /** The names of the records after record k fit when those from record k on do. */
  lemma NextNamesFit(text: seq<Line>, start: nat, k: nat)
    requires start + 5 * k < |text| && LampNamesFit(text, start + 5 * k, k + 1)
    ensures LampNamesFit(text, start + 5 * (k + 1), k + 2)
  {
    assert start + 5 * (k + 1) == start + 5 * k + 5;
  }

  /** A light read under the name of record k, appended to the lights before it, gives the lights of the first k + 1 records. */
  lemma NextLight(text: seq<Line>, start: nat, k: nat, ordinal: nat, before: seq<Light>, light: Light)
    requires start + 5 * k < |text| && before == Lights(text, start, k) && ordinal == k + 1
    requires light == ParseLamp(text, start + 5 * k, ordinal)
    ensures before + [light] == Lights(text, start, k + 1)
  {
  }

  /** The lamp name is as long as its two zero-padded fields and the four letters before them. */
  lemma LampNameLength(ordinal: nat, sourceType: nat)
    ensures |LampName(ordinal, sourceType)| == 4 + FieldWidth(DecimalDigitCount(ordinal)) + FieldWidth(HexDigitCount(sourceType))
  {
    FormatDecimalLength(ordinal);
    FormatHexLength(sourceType);
  }

}
