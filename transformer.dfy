/**
 * The body of process_file between reading and writing: find every date
 * candidate with re.findall, then for each candidate in order shift it with
 * shift_date and replace ALL of its occurrences in the current text with
 * str.replace.  Later candidates are looked up in the already rewritten
 * text, so a date that an earlier shift produced is shifted again when it is
 * also a later candidate.  An OverflowError from shift_date leaves the loop
 * and is caught by process_file's handler, so nothing is written.
 */
module Transformer {
  import opened Shapes
  import opened Shifter
  import opened Scanner
  import opened StrReplace

  /** What process_file ends with: the text it writes, or nothing written at all. */
  datatype Outcome = Written(text: string) | Skipped

  /** One pass of the loop body on the current text t. */
  function Step(t: string, d: string, k: int): Outcome {
    match ShiftDatePy(d, k)
    case RaisesOverflow => Skipped
    case Returned(v) => Written(Replace(t, d, v))
  }

  /** The loop run over the candidate list dates, from the original content. */
  function Rewrite(content: string, dates: seq<string>, k: int): Outcome
    decreases |dates|
  {
    if dates == [] then Written(content)
    else
      match Rewrite(content, dates[..|dates| - 1], k)
      case Skipped => Skipped
      case Written(t) => Step(t, dates[|dates| - 1], k)
  }

  /** process_file's outcome for a text and a shift of k days. */
  function Transform(content: string, k: int): Outcome {
    Rewrite(content, FindAll(content), k)
  }

  /** The candidate loop of process_file (main.py:108-111), with the OverflowError leaving it early. */
  method ShiftAllDates(content: string, k: int) returns (r: Outcome)
    ensures r == Transform(content, k)
  {
    var dates := FindAll(content);
    var shifted := content;
    for i := 0 to |dates|
      invariant Rewrite(content, dates[..i], k) == Written(shifted)
    {
      RewriteNext(content, dates, i, k, shifted);
      match ShiftDatePy(dates[i], k) {
        case RaisesOverflow =>
          SkippedStays(content, dates, i + 1, k);
          return Skipped;
        case Returned(v) =>
          shifted := Replace(shifted, dates[i], v);
      }
    }
    assert dates[..|dates|] == dates;
    return Written(shifted);
  }

  /** One more candidate is one more pass of the loop body. */
  lemma RewriteNext(content: string, dates: seq<string>, i: nat, k: int, t: string)
    requires i < |dates| && Rewrite(content, dates[..i], k) == Written(t)
    ensures Rewrite(content, dates[..i + 1], k) == Step(t, dates[i], k)
  {
    assert dates[..i + 1][..i] == dates[..i];
  }

  /** Once the loop has been left by an OverflowError, the later candidates change nothing. */
  lemma {:induction false} SkippedStays(content: string, dates: seq<string>, n: nat, k: int)
    requires n <= |dates| && Rewrite(content, dates[..n], k) == Skipped
    ensures Rewrite(content, dates, k) == Skipped
    decreases |dates| - n
  {
    if n == |dates| {
      assert dates[..n] == dates;
    } else {
      assert dates[..n + 1][..n] == dates[..n];
      SkippedStays(content, dates, n + 1, k);
    }
  }

  /** Nothing is written exactly when some candidate's shift raises OverflowError. */
  lemma {:induction false} RewriteSkippedIff(content: string, dates: seq<string>, k: int)
    ensures Rewrite(content, dates, k) == Skipped <==>
      exists j :: 0 <= j < |dates| && ShiftDatePy(dates[j], k) == RaisesOverflow
    decreases |dates|
  {
    if dates != [] {
      var init := dates[..|dates| - 1];
      RewriteSkippedIff(content, init, k);
      ExistsSplit(dates, d => ShiftDatePy(d, k) == RaisesOverflow);
    }
  }

  /** Some element satisfies p exactly when one before the last does or the last does. */
  lemma ExistsSplit(xs: seq<string>, p: string -> bool)
    requires xs != []
    ensures var init := xs[..|xs| - 1];
      (exists j :: 0 <= j < |xs| && p(xs[j])) <==>
      (exists j :: 0 <= j < |init| && p(init[j])) || p(xs[|xs| - 1])
  {
    var init := xs[..|xs| - 1];
    if exists j :: 0 <= j < |init| && p(init[j]) {
      var j :| 0 <= j < |init| && p(init[j]);
      assert xs[j] == init[j];
    }
    if exists j :: 0 <= j < |xs| && p(xs[j]) {
      var j :| 0 <= j < |xs| && p(xs[j]);
      if j < |init| {
        assert init[j] == xs[j];
      }
    }
  }

  /** When every candidate shifts to itself, the text comes out unchanged. */
  lemma {:induction false} RewriteIdentity(content: string, dates: seq<string>, k: int)
    requires forall j :: 0 <= j < |dates| ==> ShiftDatePy(dates[j], k) == Returned(dates[j])
    ensures Rewrite(content, dates, k) == Written(content)
    decreases |dates|
  {
    if dates != [] {
      var init := dates[..|dates| - 1];
      var d := dates[|dates| - 1];
      assert forall j :: 0 <= j < |init| ==> init[j] == dates[j];
      RewriteIdentity(content, init, k);
      ReplaceSelf(content, d);
    }
  }

  /** A file is skipped exactly when one of its candidates parses and its shift leaves years 1..9999. */
  lemma TransformSkippedIff(content: string, k: int)
    ensures Transform(content, k) == Skipped <==>
      exists j :: 0 <= j < |FindAll(content)| && ShiftDate(FindAll(content)[j], k) == OutOfRange
  {
    RewriteSkippedIff(content, FindAll(content), k);
  }

  /** A zero shift writes back the content unchanged. */
  lemma TransformZero(content: string)
    ensures Transform(content, 0) == Written(content)
  {
    var dates := FindAll(content);
    forall j | 0 <= j < |dates|
      ensures ShiftDatePy(dates[j], 0) == Returned(dates[j])
    {
      ShiftZeroReturnsInput(dates[j]);
    }
    RewriteIdentity(content, dates, 0);
  }

  // ---------------------------------------------------------------------
  // Texts of the form p1 d1 p2 d2 p3 with two YYYY-MM-DD candidates.
  // ---------------------------------------------------------------------

  /** Text with no ASCII digit. */
  predicate Plain(a: string) {
    forall p :: 0 <= p < |a| ==> !IsDigit(a[p])
  }

  /** A YYYY-MM-DD piece is replaced whole when it is the needle and kept otherwise. */
  lemma ReplacePiece(d: string, b: string, needle: string, repl: string)
    requires IsoShape(d) && IsoShape(needle) && (b == [] || !IsDigit(b[0]))
    ensures Replace(d + b, needle, repl) == (if d == needle then repl else d) + Replace(b, needle, repl)
  {
    if d == needle {
      ReplaceAtFront(b, needle, repl);
    } else {
      ReplaceAfterOtherDate(d, b, needle, repl);
    }
  }

  lemma ReplacePlainEnd(p: string, needle: string, repl: string)
    requires Plain(p) && IsoShape(needle)
    ensures Replace(p, needle, repl) == p
  {
    ReplaceAfterPlainText(p, [], needle, repl);
    assert p + [] == p;
    ReplaceInEmpty(needle, repl);
  }

  /** str.replace on p1 d1 p2 d2 p3 swaps exactly the pieces equal to the needle. */
  lemma ReplaceTwoDates(p1: string, d1: string, p2: string, d2: string, p3: string, needle: string, repl: string)
    requires Plain(p1) && Plain(p2) && Plain(p3) && |p2| > 0
    requires IsoShape(d1) && IsoShape(d2) && IsoShape(needle)
    ensures Replace(p1 + (d1 + (p2 + (d2 + p3))), needle, repl)
      == p1 + ((if d1 == needle then repl else d1) + (p2 + ((if d2 == needle then repl else d2) + p3)))
  {
    ReplacePlainEnd(p3, needle, repl);
    ReplacePiece(d2, p3, needle, repl);
    ReplaceAfterPlainText(p2, d2 + p3, needle, repl);
    ReplacePiece(d1, p2 + (d2 + p3), needle, repl);
    ReplaceAfterPlainText(p1, d1 + (p2 + (d2 + p3)), needle, repl);
  }

  /** re.findall on p1 d1 p2 d2 p3 finds the two dates in order. */
  lemma FindAllTwoDates(p1: string, d1: string, p2: string, d2: string, p3: string)
    requires Plain(p1) && Plain(p2) && Plain(p3)
    requires IsoShape(d1) && IsoShape(d2)
    ensures FindAll(p1 + (d1 + (p2 + (d2 + p3)))) == [d1, d2]
  {
    FindAllAfterPlainText(p3, []);
    assert p3 + [] == p3;
    FindAllOfEmpty();
    FindAllAfterCandidate(d2, p3);
    FindAllAfterPlainText(p2, d2 + p3);
    FindAllAfterCandidate(d1, p2 + (d2 + p3));
    FindAllAfterPlainText(p1, d1 + (p2 + (d2 + p3)));
  }

  /** Two loop passes where neither shift overflows. */
  lemma RewriteTwoDates(content: string, d1: string, v1: string, d2: string, v2: string, k: int)
    requires ShiftDatePy(d1, k) == Returned(v1) && ShiftDatePy(d2, k) == Returned(v2)
    ensures Rewrite(content, [d1, d2], k) == Written(Replace(Replace(content, d1, v1), d2, v2))
  {
    assert [d1][..0] == [];
    assert Rewrite(content, [d1], k) == Step(content, d1, k) == Written(Replace(content, d1, v1));
    assert [d1, d2][..1] == [d1];
    assert Rewrite(content, [d1, d2], k) == Step(Replace(content, d1, v1), d2, k);
  }

  /**
   * process_file on a text with two YYYY-MM-DD candidates d1, d2 that shift to
   * v1, v2.  The second pass rewrites whatever equals d2 after the first pass,
   * including a v1 equal to d2.
   */
  lemma TransformTwoDates(p1: string, d1: string, p2: string, d2: string, p3: string, v1: string, v2: string, k: int)
    requires Plain(p1) && Plain(p2) && Plain(p3) && |p2| > 0
    requires IsoShape(d1) && IsoShape(d2) && IsoShape(v1)
    requires ShiftDatePy(d1, k) == Returned(v1) && ShiftDatePy(d2, k) == Returned(v2)
    ensures var e2 := if d2 == d1 then v1 else d2;
      Transform(p1 + (d1 + (p2 + (d2 + p3))), k)
      == Written(p1 + ((if v1 == d2 then v2 else v1) + (p2 + ((if e2 == d2 then v2 else e2) + p3))))
  {
    var c := p1 + (d1 + (p2 + (d2 + p3)));
    FindAllTwoDates(p1, d1, p2, d2, p3);
    RewriteTwoDates(c, d1, v1, d2, v2, k);
    ReplaceTwoDates(p1, d1, p2, d2, p3, d1, v1);
    var e2 := if d2 == d1 then v1 else d2;
    ReplaceTwoDates(p1, v1, p2, e2, p3, d2, v2);
  }

  // ---------------------------------------------------------------------
  // Examples.
  // ---------------------------------------------------------------------

  /** "Meeting on 2023-01-15 and follow-up 2023-01-20." shifted by 10 days. */
  lemma MeetingExample()
    ensures Transform("Meeting on " + ("2023-01-15" + (" and follow-up " + ("2023-01-20" + "."))), 10)
      == Written("Meeting on " + ("2023-01-25" + (" and follow-up " + ("2023-01-30" + "."))))
  {
    assert Plain("Meeting on ") && Plain(" and follow-up ") && Plain(".");
    assert IsoShape("2023-01-15") && IsoShape("2023-01-20") && IsoShape("2023-01-25");
    ShiftWithinMonth();
    ShiftToMonthEnd();
    TransformTwoDates("Meeting on ", "2023-01-15", " and follow-up ", "2023-01-20", ".", "2023-01-25", "2023-01-30", 10);
  }

  /**
   * The first shift turns 2023-01-15 into 2023-01-25, which is also the
   * second candidate, so the second pass shifts both occurrences.
   */
  lemma CascadeExample()
    ensures Transform("2023-01-15" + (" " + "2023-01-25"), 10) == Written("2023-02-04" + (" " + "2023-02-04"))
  {
    assert [] + ("2023-01-15" + (" " + ("2023-01-25" + []))) == "2023-01-15" + (" " + "2023-01-25");
    assert [] + ("2023-02-04" + (" " + ("2023-02-04" + []))) == "2023-02-04" + (" " + "2023-02-04");
    assert Plain([]) && Plain(" ");
    assert IsoShape("2023-01-15") && IsoShape("2023-01-25");
    ShiftWithinMonth();
    ShiftAcrossMonthEnd();
    TransformTwoDates([], "2023-01-15", " ", "2023-01-25", [], "2023-01-25", "2023-02-04", 10);
  }

  /** A file holding 9999-12-31 is not written when the shift is forward. */
  lemma OverflowSkipsFile()
    ensures Transform("9999-12-31", 1) == Skipped
  {
    FindAllAfterCandidate("9999-12-31", []);
    assert "9999-12-31" + [] == "9999-12-31";
    FindAllOfEmpty();
    OverflowPastLastDate();
    assert ["9999-12-31"][..0] == [];
  }
}
