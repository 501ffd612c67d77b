/**
 * re.findall with the pattern
 *   \d{4}-\d{2}-\d{2} | \d{2}[/-]\d{2}[/-]\d{4} | \d{2}[/-]\d{2}[/-]\d{2}
 * over a text.  Every alternative has a fixed width, so the engine's work
 * at one position is a window test per alternative, tried in the
 * pattern's order.  The scan moves left to right: at a position where some
 * alternative matches it records the first such match and resumes right
 * after it; elsewhere it moves on by one character.  Matches never overlap
 * and repeated dates are kept.
 */
module Scanner {
  import opened Wrappers
  import opened Shapes

  /** The three alternatives of the pattern. */
  datatype Shape = Iso | DmyLong | DmyShort

  /** The position of the alternative in the pattern: earlier ones win. */
  function Rank(sh: Shape): nat {
    match sh
    case Iso => 0
    case DmyLong => 1
    case DmyShort => 2
  }

  function Width(sh: Shape): nat {
    match sh
    case Iso => 10
    case DmyLong => 10
    case DmyShort => 8
  }

  predicate Fits(w: string, sh: Shape) {
    match sh
    case Iso => IsoShape(w)
    case DmyLong => DmyLongShape(w)
    case DmyShort => DmyShortShape(w)
  }

  /** Alternative sh matches the text at position i. */
  predicate FitsAt(s: string, i: nat, sh: Shape) {
    i + Width(sh) <= |s| && Fits(s[i..i + Width(sh)], sh)
  }

  /** What the alternation matches at position i: the first alternative that fits, if any. */
  function ShapeAt(s: string, i: nat): (r: Option<Shape>)
    ensures r.Some? ==> FitsAt(s, i, r.value)
    ensures r.Some? ==> forall sh :: Rank(sh) < Rank(r.value) ==> !FitsAt(s, i, sh)
    ensures r.None? ==> forall sh :: !FitsAt(s, i, sh)
  {
    if FitsAt(s, i, Iso) then Some(Iso)
    else if FitsAt(s, i, DmyLong) then Some(DmyLong)
    else if FitsAt(s, i, DmyShort) then Some(DmyShort)
    else None
  }

  /** One match: where it starts and which alternative produced it. */
  datatype Span = Span(start: nat, shape: Shape)

  function End(sp: Span): (e: nat)
    ensures sp.start <= e
  {
    sp.start + Width(sp.shape)
  }

  /** Every span is a match of its alternative inside s, at or after position i. */
  predicate Sound(s: string, i: nat, r: seq<Span>) {
    forall j :: 0 <= j < |r| ==> i <= r[j].start && FitsAt(s, r[j].start, r[j].shape)
  }

  /** The spans come in text order and do not overlap. */
  predicate Ordered(r: seq<Span>) {
    forall j :: 0 <= j < |r| - 1 ==> End(r[j]) <= r[j + 1].start
  }

  /** Every span ends inside a text of length n. */
  predicate Within(n: nat, r: seq<Span>) {
    forall j :: 0 <= j < |r| ==> End(r[j]) <= n
  }

  /** The scan from position i onward. */
  function ScanFrom(s: string, i: nat): (r: seq<Span>)
    requires i <= |s|
    decreases |s| - i
  {
    if i == |s| then []
    else
      match ShapeAt(s, i)
      case None => ScanFrom(s, i + 1)
      case Some(sh) => [Span(i, sh)] + ScanFrom(s, i + Width(sh))
  }

  /** The matched texts of a list of spans. */
  function Texts(s: string, r: seq<Span>): (ts: seq<string>)
    requires Within(|s|, r)
    ensures |ts| == |r|
  {
    seq(|r|, j requires 0 <= j < |r| => s[r[j].start..End(r[j])])
  }

  /** re.findall(date_pattern, content). */
  function FindAll(s: string): (ds: seq<string>)
    ensures forall j :: 0 <= j < |ds| ==>
      IsoShape(ds[j]) || DmyLongShape(ds[j]) || DmyShortShape(ds[j])
  {
    var r := ScanFrom(s, 0);
    ScanSound(s, 0);
    var ds := Texts(s, r);
    assert forall j :: 0 <= j < |ds| ==> Fits(ds[j], r[j].shape);
    ds
  }

  /** The scan reports real matches, in text order, without overlap. */
  lemma {:induction false} ScanSound(s: string, i: nat)
    requires i <= |s|
    ensures Sound(s, i, ScanFrom(s, i)) && Ordered(ScanFrom(s, i))
    ensures Within(|s|, ScanFrom(s, i))
    decreases |s| - i
  {
    if i < |s| {
      match ShapeAt(s, i)
      case None =>
        ScanSound(s, i + 1);
      case Some(sh) =>
        ScanSound(s, i + Width(sh));
        var rest := ScanFrom(s, i + Width(sh));
        assert ScanFrom(s, i) == [Span(i, sh)] + rest;
        assert rest != [] ==> i + Width(sh) <= rest[0].start;
    }
  }

  // ---------------------------------------------------------------------
  // An independent description of the leftmost-first, non-overlapping
  // match list, and the proof that the scan produces it and nothing else.
  // ---------------------------------------------------------------------

  /** No alternative matches at any position in lo .. hi-1. */
  predicate Gap(s: string, lo: nat, hi: nat) {
    forall p: nat, sh :: lo <= p < hi ==> !FitsAt(s, p, sh)
  }

  /** sp is the match the engine finds when it starts looking at position lo. */
  predicate FirstFrom(s: string, lo: nat, sp: Span) {
    && lo <= sp.start
    && FitsAt(s, sp.start, sp.shape)
    && (forall sh :: Rank(sh) < Rank(sp.shape) ==> !FitsAt(s, sp.start, sh))
    && Gap(s, lo, sp.start)
  }

  /** r is findall's match list from position lo: each match is the first one after the previous, and none follows the last. */
  predicate IsFindAll(s: string, lo: nat, r: seq<Span>)
    decreases |r|
  {
    if r == [] then Gap(s, lo, |s|)
    else FirstFrom(s, lo, r[0]) && IsFindAll(s, End(r[0]), r[1..])
  }

  /** A position where nothing matches adds nothing to the list. */
  lemma FindAllSkip(s: string, i: nat, r: seq<Span>)
    requires forall sh :: !FitsAt(s, i, sh)
    requires IsFindAll(s, i + 1, r)
    ensures IsFindAll(s, i, r)
  {
    if r != [] {
      assert FirstFrom(s, i + 1, r[0]);
    }
  }

  /** The scan produces the findall match list. */
  lemma {:induction false} ScanIsFindAll(s: string, i: nat)
    requires i <= |s|
    ensures IsFindAll(s, i, ScanFrom(s, i))
    decreases |s| - i
  {
    if i < |s| {
      match ShapeAt(s, i)
      case None =>
        ScanIsFindAll(s, i + 1);
        FindAllSkip(s, i, ScanFrom(s, i + 1));
      case Some(sh) =>
        var rest := ScanFrom(s, i + Width(sh));
        ScanIsFindAll(s, i + Width(sh));
        assert ([Span(i, sh)] + rest)[1..] == rest;
    }
  }

  /** Two alternatives that both match first at one position are the same alternative. */
  lemma RankDecides(s: string, p: nat, a: Shape, b: Shape)
    requires FitsAt(s, p, a) && FitsAt(s, p, b)
    requires forall sh :: Rank(sh) < Rank(a) ==> !FitsAt(s, p, sh)
    requires forall sh :: Rank(sh) < Rank(b) ==> !FitsAt(s, p, sh)
    ensures a == b
  {
  }

  /** Past a position where nothing matches, the list is also the list from the next position. */
  lemma FindAllDrop(s: string, i: nat, r: seq<Span>)
    requires forall sh :: !FitsAt(s, i, sh)
    requires IsFindAll(s, i, r)
    ensures IsFindAll(s, i + 1, r)
  {
    if r != [] {
      assert FirstFrom(s, i, r[0]);
      assert r[0].start != i;
    }
  }

  /** Where an alternative matches first at i, the list starts with that match. */
  lemma FindAllHead(s: string, i: nat, sh: Shape, r: seq<Span>)
    requires FirstFrom(s, i, Span(i, sh))
    requires IsFindAll(s, i, r)
    ensures r != [] && r[0] == Span(i, sh)
  {
    assert FirstFrom(s, i, r[0]);
    RankDecides(s, i, sh, r[0].shape);
  }

  /** The findall match list is unique: any list meeting the description is the scan's. */
  lemma {:induction false} FindAllUnique(s: string, i: nat, r: seq<Span>)
    requires i <= |s|
    requires IsFindAll(s, i, r)
    ensures r == ScanFrom(s, i)
    decreases |s| - i
  {
    if i < |s| {
      match ShapeAt(s, i)
      case None =>
        FindAllDrop(s, i, r);
        FindAllUnique(s, i + 1, r);
        ScanSkip(s, i);
      case Some(sh) =>
        FindAllHead(s, i, sh, r);
        assert IsFindAll(s, i + Width(sh), r[1..]);
        FindAllUnique(s, i + Width(sh), r[1..]);
        ScanStep(s, i, sh);
        ConsTail(r, ScanFrom(s, i), ScanFrom(s, i + Width(sh)), Span(i, sh));
    }
  }

  lemma ConsTail(r: seq<Span>, a: seq<Span>, a2: seq<Span>, sp: Span)
    requires r != [] && r[0] == sp && r[1..] == a2 && a == [sp] + a2
    ensures r == a
  {
    assert r == [r[0]] + r[1..];
  }

  /** The scan's result is exactly the findall match list. */
  lemma ScanCharacterised(s: string, r: seq<Span>)
    ensures IsFindAll(s, 0, r) <==> r == ScanFrom(s, 0)
  {
    ScanIsFindAll(s, 0);
    if IsFindAll(s, 0, r) {
      FindAllUnique(s, 0, r);
    }
  }

  // ---------------------------------------------------------------------
  // The match list of a text built from pieces, and the examples.
  // ---------------------------------------------------------------------

  /** Whether an alternative matches depends only on the window it covers. */
  lemma FitsShift(s: string, i: nat, j: nat, sh: Shape)
    requires i + j <= |s|
    ensures FitsAt(s, i + j, sh) <==> FitsAt(s[i..], j, sh)
  {
    if i + j + Width(sh) <= |s| {
      assert s[i..][j..j + Width(sh)] == s[i + j..i + j + Width(sh)];
    }
  }

  /** The alternation picks the same alternative in s at i + j as in the suffix s[i..] at j. */
  lemma ShapeAtShift(s: string, i: nat, j: nat)
    requires i + j <= |s|
    ensures ShapeAt(s, i + j) == ShapeAt(s[i..], j)
  {
    FitsShift(s, i, j, Iso);
    FitsShift(s, i, j, DmyLong);
    FitsShift(s, i, j, DmyShort);
  }

  /** The spans r moved i positions to the right. */
  function Offset(r: seq<Span>, i: nat): (q: seq<Span>)
    ensures |q| == |r|
  {
    if r == [] then [] else [Span(r[0].start + i, r[0].shape)] + Offset(r[1..], i)
  }

  lemma {:induction false} OffsetIndex(r: seq<Span>, i: nat)
    ensures forall k :: 0 <= k < |r| ==> Offset(r, i)[k] == Span(r[k].start + i, r[k].shape)
  {
    if r != [] {
      OffsetIndex(r[1..], i);
    }
  }

  /** The scan of s from i + j finds the matches the scan of the suffix t = s[i..] finds from j, moved by i. */
  lemma {:induction false} ScanShift(s: string, t: string, i: nat, j: nat)
    requires i + j <= |s| && t == s[i..]
    ensures ScanFrom(s, i + j) == Offset(ScanFrom(t, j), i)
    decreases |s| - i - j
  {
    if i + j < |s| {
      ShapeAtShift(s, i, j);
      match ShapeAt(s, i + j)
      case None =>
        ScanShift(s, t, i, j + 1);
        ScanShiftSkip(s, t, i, j);
      case Some(sh) =>
        ScanShift(s, t, i, j + Width(sh));
        ScanShiftMatch(s, t, i, j, sh);
    }
  }

  /** The step of ScanShift where nothing matches. */
  lemma ScanShiftSkip(s: string, t: string, i: nat, j: nat)
    requires i + j < |s| && j < |t|
    requires ShapeAt(s, i + j) == None && ShapeAt(t, j) == None
    requires ScanFrom(s, i + j + 1) == Offset(ScanFrom(t, j + 1), i)
    ensures ScanFrom(s, i + j) == Offset(ScanFrom(t, j), i)
  {
    ScanSkip(s, i + j);
    ScanSkip(t, j);
  }

  /** The step of ScanShift where an alternative matches. */
  lemma ScanShiftMatch(s: string, t: string, i: nat, j: nat, sh: Shape)
    requires i + j < |s| && j < |t|
    requires ShapeAt(s, i + j) == Some(sh) && ShapeAt(t, j) == Some(sh)
    requires ScanFrom(s, i + j + Width(sh)) == Offset(ScanFrom(t, j + Width(sh)), i)
    ensures ScanFrom(s, i + j) == Offset(ScanFrom(t, j), i)
  {
    ScanStep(s, i + j, sh);
    ScanStep(t, j, sh);
    OffsetStep(ScanFrom(s, i + j), ScanFrom(s, i + j + Width(sh)), ScanFrom(t, j), ScanFrom(t, j + Width(sh)), Span(j, sh), i);
  }

  lemma OffsetStep(a: seq<Span>, a2: seq<Span>, b: seq<Span>, b2: seq<Span>, sp: Span, i: nat)
    requires a == [Span(sp.start + i, sp.shape)] + a2 && b == [sp] + b2 && a2 == Offset(b2, i)
    ensures a == Offset(b, i)
  {
    OffsetCons(sp, b2, i);
  }

  lemma OffsetCons(sp: Span, q: seq<Span>, i: nat)
    ensures Offset([sp] + q, i) == [Span(sp.start + i, sp.shape)] + Offset(q, i)
  {
    assert ([sp] + q)[1..] == q;
  }

  /** One step of the scan where nothing matches at i. */
  lemma ScanSkip(s: string, i: nat)
    requires i < |s| && ShapeAt(s, i) == None
    ensures ScanFrom(s, i) == ScanFrom(s, i + 1)
  {
  }

  /** Moving spans into the longer text does not change the texts they cover. */
  lemma TextsOffset(s: string, t: string, i: nat, r: seq<Span>)
    requires i <= |s| && t == s[i..] && Within(|t|, r)
    ensures Within(|s|, Offset(r, i))
    ensures Texts(s, Offset(r, i)) == Texts(t, r)
  {
    var q := Offset(r, i);
    OffsetIndex(r, i);
    forall k | 0 <= k < |r|
      ensures s[q[k].start..End(q[k])] == t[r[k].start..End(r[k])]
    {
      SliceOfSuffix(s, i, r[k].start, End(r[k]));
    }
  }

  /** One step of the scan where an alternative matches at i. */
  lemma ScanStep(s: string, i: nat, sh: Shape)
    requires i < |s| && ShapeAt(s, i) == Some(sh)
    ensures ScanFrom(s, i) == [Span(i, sh)] + ScanFrom(s, i + Width(sh))
  {
  }

  lemma SliceOfSuffix(s: string, i: nat, a: nat, b: nat)
    requires a <= b && i + b <= |s|
    ensures s[i..][a..b] == s[i + a..i + b]
  {
  }

  /** Every alternative starts with a digit, so the scan steps over any other character. */
  lemma {:induction false} SkipNonDigits(s: string, i: nat, n: nat)
    requires i + n <= |s|
    requires forall p :: i <= p < i + n ==> !IsDigit(s[p])
    ensures ScanFrom(s, i) == ScanFrom(s, i + n)
    decreases n
  {
    if n > 0 {
      assert ShapeAt(s, i) == None;
      SkipNonDigits(s, i + 1, n - 1);
    }
  }

  /** The empty text holds no date. */
  lemma FindAllOfEmpty()
    ensures FindAll([]) == []
  {
  }

  /** Text without digits in front of b adds no matches. */
  lemma FindAllAfterPlainText(a: string, b: string)
    requires forall p :: 0 <= p < |a| ==> !IsDigit(a[p])
    ensures FindAll(a + b) == FindAll(b)
  {
    var s := a + b;
    SkipNonDigits(s, 0, |a|);
    assert s[|a|..] == b;
    ScanShift(s, b, |a|, 0);
    ScanSound(b, 0);
    TextsOffset(s, b, |a|, ScanFrom(b, 0));
  }

  /** A candidate w at the front is found whole, and the scan goes on after it. */
  lemma FindAllAfterCandidate(w: string, b: string)
    requires IsoShape(w) || DmyLongShape(w) || (DmyShortShape(w) && (b == [] || !IsDigit(b[0])))
    ensures FindAll(w + b) == [w] + FindAll(b)
  {
    var s := w + b;
    var sh := CandidateShape(w, b);
    ScanStep(s, 0, sh);
    assert s[|w|..] == b;
    ScanShift(s, b, |w|, 0);
    var r := ScanFrom(b, 0);
    ScanSound(b, 0);
    TextsOffset(s, b, |w|, r);
    TextsCons(s, Span(0, sh), Offset(r, |w|));
  }

  lemma TextsCons(s: string, sp: Span, r: seq<Span>)
    requires End(sp) <= |s| && Within(|s|, r)
    ensures Texts(s, [sp] + r) == [s[sp.start..End(sp)]] + Texts(s, r)
  {
    var x := [sp] + r;
    assert forall k :: 0 < k < |x| ==> x[k] == r[k - 1];
  }

  /** The alternative the pattern picks at the front of w + b covers exactly w. */
  lemma CandidateShape(w: string, b: string) returns (sh: Shape)
    requires IsoShape(w) || DmyLongShape(w) || (DmyShortShape(w) && (b == [] || !IsDigit(b[0])))
    ensures 0 < |w + b| && ShapeAt(w + b, 0) == Some(sh) && Width(sh) == |w|
    ensures (w + b)[0..Width(sh)] == w
  {
    var s := w + b;
    assert s[..|w|] == w;
    sh := ShapeAt(s, 0).value;
  }

  /** The scan of the example line from its second plain-text piece on. */
  lemma FindAllExampleTail()
    ensures FindAll(" mid " + ("31/12/99" + (" end " + ("31-12-2023" + (" tail " + ("2023-13-40" + " done"))))))
      == ["31/12/99", "31-12-2023", "2023-13-40"]
  {
    assert DmyShortShape("31/12/99");
    FindAllExampleEnd();
    var t := " end " + ("31-12-2023" + (" tail " + ("2023-13-40" + " done")));
    FindAllAfterCandidate("31/12/99", t);
    FindAllAfterPlainText(" mid ", "31/12/99" + t);
  }

  /** The scan of the example line from its third plain-text piece on. */
  lemma FindAllExampleEnd()
    ensures FindAll(" end " + ("31-12-2023" + (" tail " + ("2023-13-40" + " done"))))
      == ["31-12-2023", "2023-13-40"]
  {
    assert IsoShape("2023-13-40") && DmyLongShape("31-12-2023");
    FindAllAfterPlainText(" done", []);
    assert " done" + [] == " done";
    FindAllAfterCandidate("2023-13-40", " done");
    var t := "2023-13-40" + " done";
    FindAllAfterPlainText(" tail ", t);
    t := " tail " + t;
    FindAllAfterCandidate("31-12-2023", t);
    FindAllAfterPlainText(" end ", "31-12-2023" + t);
  }

  /**
   * Dates of the three shapes are found in text order, whether or not they
   * are real dates.  The line is
   * "start 2023-12-31 mid 31/12/99 end 31-12-2023 tail 2023-13-40 done".
   */
  lemma FindAllExampleLine()
    ensures FindAll("start " + ("2023-12-31" + (" mid " + ("31/12/99" + (" end " + ("31-12-2023" + (" tail " + ("2023-13-40" + " done"))))))))
      == ["2023-12-31", "31/12/99", "31-12-2023", "2023-13-40"]
  {
    assert IsoShape("2023-12-31");
    FindAllExampleTail();
    var t := " mid " + ("31/12/99" + (" end " + ("31-12-2023" + (" tail " + ("2023-13-40" + " done")))));
    FindAllAfterCandidate("2023-12-31", t);
    FindAllAfterPlainText("start ", "2023-12-31" + t);
  }

  /** The two-digit-year alternative also fits at the start of 01/02/2023, but the four-digit one comes first and wins. */
  lemma FindAllPrefersLongYear()
    ensures DmyShortShape("01/02/2023"[..8])
    ensures FindAll("01/02/2023") == ["01/02/2023"]
  {
    FindAllAfterCandidate("01/02/2023", []);
    assert "01/02/2023" + [] == "01/02/2023";
  }

  /** Matching is lexical: 99-99-99 is a candidate. */
  lemma FindAllIsLexical()
    ensures FindAll("99-99-99") == ["99-99-99"]
  {
    FindAllAfterCandidate("99-99-99", []);
    assert "99-99-99" + [] == "99-99-99";
  }
}
