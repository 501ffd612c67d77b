/**
 * Python's str.replace(old, new) with no count: every occurrence of old,
 * found left to right and never overlapping, is replaced by new, and the
 * text put in is never searched again.  An empty old matches before every
 * character and at the end.  The reference description is the pair
 * str.split(old) / new.join(...): for a non-empty old, replacing equals
 * joining the split pieces with new.
 */
module StrReplace {
  import opened Shapes

  /** needle occurs in s starting at position i. */
  predicate OccursAt(s: string, needle: string, i: nat) {
    i + |needle| <= |s| && s[i..i + |needle|] == needle
  }

  /** needle occurs nowhere in s. */
  ghost predicate Absent(s: string, needle: string) {
    forall i: nat :: !OccursAt(s, needle, i)
  }

  /** s.replace(old, new). */
  function Replace(s: string, needle: string, repl: string): (r: string)
    ensures 0 < |needle| == |repl| ==> |r| == |s|
    decreases |s|
  {
    if |needle| == 0 then
      (if |s| == 0 then repl else repl + [s[0]] + Replace(s[1..], needle, repl))
    else if |s| < |needle| then s
    else if s[..|needle|] == needle then repl + Replace(s[|needle|..], needle, repl)
    else [s[0]] + Replace(s[1..], needle, repl)
  }

  /** s.split(sep) for a non-empty sep. */
  function Split(s: string, sep: string): (parts: seq<string>)
    requires |sep| > 0
    ensures |parts| >= 1
    decreases |s|
  {
    if |s| < |sep| then [s]
    else if s[..|sep|] == sep then [[]] + Split(s[|sep|..], sep)
    else
      var rest := Split(s[1..], sep);
      [[s[0]] + rest[0]] + rest[1..]
  }

  /** sep.join(parts). */
  function Join(parts: seq<string>, sep: string): string
    requires |parts| >= 1
    decreases |parts|
  {
    if |parts| == 1 then parts[0] else parts[0] + sep + Join(parts[1..], sep)
  }

  lemma JoinConsHead(c: char, parts: seq<string>, sep: string)
    requires |parts| >= 1
    ensures Join([[c] + parts[0]] + parts[1..], sep) == [c] + Join(parts, sep)
  {
    var q := [[c] + parts[0]] + parts[1..];
    assert q[1..] == parts[1..];
  }

  /** For a non-empty needle, replacing is splitting on needle and joining with repl. */
  lemma {:induction false} ReplaceIsSplitJoin(s: string, needle: string, repl: string)
    requires |needle| > 0
    ensures Replace(s, needle, repl) == Join(Split(s, needle), repl)
    decreases |s|
  {
    if |s| < |needle| {
    } else if s[..|needle|] == needle {
      ReplaceIsSplitJoin(s[|needle|..], needle, repl);
      JoinEmptyHead(Split(s[|needle|..], needle), repl);
    } else {
      ReplaceIsSplitJoin(s[1..], needle, repl);
      assert s[0..|needle|] == s[..|needle|];
      ReplaceKeepFirst(s, needle, repl);
      JoinConsHead(s[0], Split(s[1..], needle), repl);
    }
  }

  lemma JoinEmptyHead(parts: seq<string>, sep: string)
    requires |parts| >= 1
    ensures Join([[]] + parts, sep) == sep + Join(parts, sep)
  {
    assert ([[]] + parts)[1..] == parts;
  }

  /** Replacing a text by itself changes nothing. */
  lemma {:induction false} ReplaceSelf(s: string, x: string)
    ensures Replace(s, x, x) == s
    decreases |s|
  {
    if |x| == 0 {
      if |s| > 0 {
        ReplaceSelf(s[1..], x);
        assert s == [s[0]] + s[1..];
      }
    } else if |s| < |x| {
    } else if s[..|x|] == x {
      ReplaceSelf(s[|x|..], x);
      assert s == s[..|x|] + s[|x|..];
    } else {
      ReplaceSelf(s[1..], x);
      assert s == [s[0]] + s[1..];
    }
  }

  /** Joining the split pieces with the separator gives the text back. */
  lemma SplitJoin(s: string, sep: string)
    requires |sep| > 0
    ensures Join(Split(s, sep), sep) == s
  {
    ReplaceIsSplitJoin(s, sep, sep);
    ReplaceSelf(s, sep);
  }

  /** An occurrence in s[1..] is an occurrence in s one position later. */
  lemma OccursInTail(s: string, needle: string, i: nat)
    requires |s| > 0
    ensures OccursAt(s[1..], needle, i) <==> OccursAt(s, needle, i + 1)
  {
    if i + 1 + |needle| <= |s| {
      assert s[1..][i..i + |needle|] == s[i + 1..i + 1 + |needle|];
    }
  }

  /** A text without the needle is left as it is. */
  lemma {:induction false} ReplaceAbsent(s: string, needle: string, repl: string)
    requires |needle| > 0 && Absent(s, needle)
    ensures Replace(s, needle, repl) == s
    decreases |s|
  {
    if |s| >= |needle| {
      assert !OccursAt(s, needle, 0);
      assert s[0..|needle|] == s[..|needle|];
      forall i: nat
        ensures !OccursAt(s[1..], needle, i)
      {
        OccursInTail(s, needle, i);
      }
      ReplaceAbsent(s[1..], needle, repl);
      assert s == [s[0]] + s[1..];
    }
  }

  /** The first piece of a split is a prefix of the text. */
  lemma {:induction false} SplitHeadPrefix(s: string, sep: string)
    requires |sep| > 0
    ensures |Split(s, sep)[0]| <= |s| && Split(s, sep)[0] == s[..|Split(s, sep)[0]|]
    decreases |s|
  {
    if |s| >= |sep| && s[..|sep|] != sep {
      SplitHeadPrefix(s[1..], sep);
      var h := Split(s[1..], sep)[0];
      assert s[..|h| + 1] == [s[0]] + s[1..][..|h|];
    }
  }

  /** A piece that starts with a character c and goes on with a piece free of sep is free of sep, unless sep starts right at c. */
  lemma ConsPieceAbsent(c: char, p: string, sep: string)
    requires |sep| > 0 && Absent(p, sep)
    requires !OccursAt([c] + p, sep, 0)
    ensures Absent([c] + p, sep)
  {
    var q := [c] + p;
    forall i: nat
      ensures !OccursAt(q, sep, i)
    {
      if i > 0 {
        OccursInTail(q, sep, i - 1);
        assert q[1..] == p;
      }
    }
  }

  /** No split piece contains the separator. */
  lemma {:induction false} SplitPiecesAbsent(s: string, sep: string)
    requires |sep| > 0
    ensures forall j :: 0 <= j < |Split(s, sep)| ==> Absent(Split(s, sep)[j], sep)
    decreases |s|
  {
    var parts := Split(s, sep);
    if |s| < |sep| {
      forall i: nat
        ensures !OccursAt(s, sep, i)
      {
      }
    } else if s[..|sep|] == sep {
      SplitPiecesAbsent(s[|sep|..], sep);
      var rest := Split(s[|sep|..], sep);
      assert parts == [[]] + rest;
      forall j | 0 <= j < |parts|
        ensures Absent(parts[j], sep)
      {
        if j > 0 {
          assert parts[j] == rest[j - 1];
        }
      }
    } else {
      SplitPiecesAbsent(s[1..], sep);
      var rest := Split(s[1..], sep);
      SplitHeadPrefix(s[1..], sep);
      var head := [s[0]] + rest[0];
      assert parts == [head] + rest[1..];
      HeadPieceAbsent(s, sep, rest[0]);
      forall j | 0 <= j < |parts|
        ensures Absent(parts[j], sep)
      {
        if j > 0 {
          assert parts[j] == rest[j];
        }
      }
    }
  }

  /** The step of SplitPiecesAbsent where the text does not start with sep. */
  lemma HeadPieceAbsent(s: string, sep: string, h: string)
    requires |sep| > 0 && |s| >= |sep| && s[..|sep|] != sep
    requires Absent(h, sep) && |h| <= |s| - 1 && h == s[1..][..|h|]
    ensures Absent([s[0]] + h, sep)
  {
    var q := [s[0]] + h;
    assert q == s[..|h| + 1];
    ConsPieceAbsent(s[0], h, sep);
  }

  // ---------------------------------------------------------------------
  // Replacing in a text assembled from pieces.
  // ---------------------------------------------------------------------

  /** Text with no digit in front of b is kept as it is when needle starts with a digit. */
  lemma {:induction false} ReplaceAfterPlainText(a: string, b: string, needle: string, repl: string)
    requires |needle| > 0 && IsDigit(needle[0])
    requires forall p :: 0 <= p < |a| ==> !IsDigit(a[p])
    ensures Replace(a + b, needle, repl) == a + Replace(b, needle, repl)
    decreases |a|
  {
    if a == [] {
      assert a + b == b;
    } else {
      ReplaceAfterPlainText(a[1..], b, needle, repl);
      ReplaceSkipChar(a + b, needle, repl);
      assert (a + b)[1..] == a[1..] + b;
      ConsConcat(Replace(a + b, needle, repl), a[0], Replace(a[1..] + b, needle, repl),
                 a[1..], Replace(b, needle, repl), a);
    }
  }

  /** Where the needle does not start at the first character, that character is kept. */
  lemma ReplaceSkipChar(s: string, needle: string, repl: string)
    requires |needle| > 0 && |s| > 0 && s[0] != needle[0]
    ensures Replace(s, needle, repl) == [s[0]] + Replace(s[1..], needle, repl)
  {
    if |s| < |needle| {
      assert Replace(s[1..], needle, repl) == s[1..];
      assert s == [s[0]] + s[1..];
    } else {
      assert s[..|needle|][0] == s[0];
    }
  }

  /** An occurrence of needle at the front is replaced, and the search resumes after it. */
  lemma ReplaceAtFront(b: string, needle: string, repl: string)
    requires |needle| > 0
    ensures Replace(needle + b, needle, repl) == repl + Replace(b, needle, repl)
  {
    var s := needle + b;
    assert s[..|needle|] == needle;
    assert s[|needle|..] == b;
  }

  /** The empty text stays empty when needle is not empty. */
  lemma ReplaceInEmpty(needle: string, repl: string)
    requires |needle| > 0
    ensures Replace([], needle, repl) == []
  {
  }

  /** Where the needle starts at none of the first k positions, those k characters are kept. */
  lemma {:induction false} ReplaceKeepPrefix(s: string, k: nat, needle: string, repl: string)
    requires |needle| > 0 && k <= |s|
    requires forall p: nat :: p < k ==> !OccursAt(s, needle, p)
    ensures Replace(s, needle, repl) == s[..k] + Replace(s[k..], needle, repl)
    decreases k
  {
    if k == 0 {
      assert s[k..] == s;
    } else {
      var t := s[1..];
      ReplaceKeepFirst(s, needle, repl);
      NoOccurrenceInTail(s, k, needle);
      ReplaceKeepPrefix(t, k - 1, needle, repl);
      PrefixSplit(s, k);
      ConsConcat(Replace(s, needle, repl), s[0], Replace(t, needle, repl), t[..k - 1], Replace(s[k..], needle, repl), s[..k]);
    }
  }

  lemma ConsConcat(whole: string, c: char, tail: string, front: string, rest: string, prefix: string)
    requires whole == [c] + tail && tail == front + rest && prefix == [c] + front
    ensures whole == prefix + rest
  {
  }

  lemma NoOccurrenceInTail(s: string, k: nat, needle: string)
    requires 0 < k <= |s|
    requires forall p: nat :: p < k ==> !OccursAt(s, needle, p)
    ensures forall p: nat :: p < k - 1 ==> !OccursAt(s[1..], needle, p)
  {
    forall p: nat | p < k - 1
      ensures !OccursAt(s[1..], needle, p)
    {
      OccursInTail(s, needle, p);
    }
  }

  /** Where the needle does not start at the first character, that character is kept. */
  lemma ReplaceKeepFirst(s: string, needle: string, repl: string)
    requires |needle| > 0 && |s| > 0 && !OccursAt(s, needle, 0)
    ensures Replace(s, needle, repl) == [s[0]] + Replace(s[1..], needle, repl)
  {
    if |s| < |needle| {
      ReplaceShort(s[1..], needle, repl);
      assert s == [s[0]] + s[1..];
    } else {
      assert s[0..|needle|] == s[..|needle|];
    }
  }

  lemma PrefixSplit(s: string, k: nat)
    requires 0 < k <= |s|
    ensures s[1..][k - 1..] == s[k..]
    ensures s[..k] == [s[0]] + s[1..][..k - 1]
  {
    assert s[1..][..k - 1] == s[1..k];
  }

  /** A text shorter than a non-empty needle is left as it is. */
  lemma ReplaceShort(s: string, needle: string, repl: string)
    requires 0 < |needle| && |s| < |needle|
    ensures Replace(s, needle, repl) == s
  {
  }

  /** An occurrence fixes every character it covers. */
  lemma OccursAtChar(s: string, needle: string, p: nat, k: nat)
    requires OccursAt(s, needle, p) && k < |needle|
    ensures s[p + k] == needle[k]
  {
    assert s[p..p + |needle|][k] == s[p + k];
  }

  /** A YYYY-MM-DD needle cannot start inside a different YYYY-MM-DD text that is not followed by a digit. */
  lemma OtherDateHasNoOccurrence(w: string, b: string, needle: string, p: nat)
    requires IsoShape(w) && IsoShape(needle) && w != needle
    requires b == [] || !IsDigit(b[0])
    requires p < |w|
    ensures !OccursAt(w + b, needle, p)
  {
    var s := w + b;
    if OccursAt(s, needle, p) {
      if p == 0 {
      } else if p <= 3 {
        OccursAtChar(s, needle, p, 4 - p);
      } else if p == 4 || p == 7 {
      } else if p <= 6 {
        OccursAtChar(s, needle, p, 7 - p);
      } else {
        OccursAtChar(s, needle, p, 10 - p);
      }
    }
  }

  /** A YYYY-MM-DD text that is not the needle, and not followed by a digit, is kept as it is. */
  lemma ReplaceAfterOtherDate(w: string, b: string, needle: string, repl: string)
    requires IsoShape(w) && IsoShape(needle) && w != needle
    requires b == [] || !IsDigit(b[0])
    ensures Replace(w + b, needle, repl) == w + Replace(b, needle, repl)
  {
    var s := w + b;
    forall p: nat | p < |w|
      ensures !OccursAt(s, needle, p)
    {
      OtherDateHasNoOccurrence(w, b, needle, p);
    }
    ReplaceKeepPrefix(s, |w|, needle, repl);
    assert s[..|w|] == w && s[|w|..] == b;
  }
}
