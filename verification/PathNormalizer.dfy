/**
  The numeric-id pass of metrics path normalisation: re.sub of `/\d+(/|$)` by `/{id}\1`,
  leftmost and non-overlapping.  A match swallows the slash that follows it, so of adjacent
  numeric segments only every other one is replaced.
*/
module PathNormalizer {
  import opened Text

  const PLACEHOLDER := "{id}"

  /** Length of the run of digits at the front: what the greedy `\d+` takes. */
  function LeadingDigits(s: string): (n: nat)
    ensures n <= |s|
    ensures forall i :: 0 <= i < n ==> IsDigit(s[i])
    ensures n < |s| ==> !IsDigit(s[n])
  {
    if s != "" && IsDigit(s[0]) then 1 + LeadingDigits(s[1..]) else 0
  }

  /** `$` without MULTILINE: at the end, or before a newline that ends the string. */
  predicate AtEnd(s: string) {
    s == "" || s == "\n"
  }

  /**
    How many digits a match at a slash takes from the text after it, 0 for no match.
    Giving back digits never helps: what follows a shorter run is a digit, which is
    neither a slash nor the end.
  */
  function MatchedDigits(t: string): (n: nat)
    ensures n <= |t|
  {
    var n := LeadingDigits(t);
    if n > 0 && (AtEnd(t[n..]) || t[n] == '/') then n else 0
  }

  /** The substitution. */
  function Normalize(s: string): string
    decreases |s|, 0
  {
    if s == "" then ""
    else
      var n := if s[0] == '/' then MatchedDigits(s[1..]) else 0;
      if n == 0 then [s[0]] + Normalize(s[1..])
      else Replaced(s[1 + n..])
  }

  /** The replacement for a match in front of `rest`, with the slash it swallowed if there is one. */
  function Replaced(rest: string): string
    decreases |rest|, 1
  {
    if rest != "" && rest[0] == '/' then "/" + PLACEHOLDER + "/" + Normalize(rest[1..])
    else "/" + PLACEHOLDER + Normalize(rest)
  }

  // ------------------------------------------------------------------ segment by segment

  /**
    Replaces numeric segments from left to right, never two in a row. `open` says whether
    the slash before the first segment is still there to match.
  */
  function Alternate(segs: seq<string>, open: bool): (r: seq<string>)
    ensures |r| == |segs|
  {
    if segs == [] then []
    else if open && Numeric(segs[0]) then [PLACEHOLDER] + Alternate(segs[1..], false)
    else [segs[0]] + Alternate(segs[1..], true)
  }

  /** The pass, on the parts between slashes: the part before the first slash is never replaced. */
  function Pass(segs: seq<string>): (r: seq<string>)
    ensures |r| == |segs|
  {
    Alternate(segs, false)
  }

  predicate Plain(segs: seq<string>) {
    forall i :: 0 <= i < |segs| ==> '/' !in segs[i] && '\n' !in segs[i]
  }

  lemma {:induction false} DigitsOfSegment(seg: string, rest: string)
    requires '/' !in seg && (rest == "" || rest[0] == '/')
    ensures LeadingDigits(seg + rest) == |seg| <==> (seg == "" || Numeric(seg))
    ensures LeadingDigits(seg + rest) <= |seg|
  {
    if seg == "" {
      assert seg + rest == rest;
    } else {
      assert (seg + rest)[1..] == seg[1..] + rest;
      DigitsOfSegment(seg[1..], rest);
      assert Numeric(seg) <==> IsDigit(seg[0]) && (seg[1..] == "" || Numeric(seg[1..])) by {
        assert forall i :: 0 <= i < |seg[1..]| ==> seg[1..][i] == seg[i + 1];
        assert seg == [seg[0]] + seg[1..];
      }
    }
  }

  /** Text without a slash is copied. */
  lemma {:induction false} SegmentIsCopied(seg: string, rest: string)
    requires '/' !in seg
    ensures Normalize(seg + rest) == seg + Normalize(rest)
  {
    if seg == "" {
      assert seg + rest == rest;
    } else {
      assert (seg + rest)[1..] == seg[1..] + rest;
      SegmentIsCopied(seg[1..], rest);
      assert [seg[0]] + (seg[1..] + Normalize(rest)) == seg + Normalize(rest);
    }
  }

  /** What the segments after a slash look like as text. */
  function Tail(segs: seq<string>): string {
    if segs == [] then "" else "/" + segs[0] + Tail(segs[1..])
  }

  lemma {:induction false} JoinIsHeadAndTail(segs: seq<string>)
    requires segs != []
    ensures Join(segs, '/') == segs[0] + Tail(segs[1..])
  {
    if |segs| > 1 {
      JoinIsHeadAndTail(segs[1..]);
      assert segs[0] + ['/'] + (segs[1] + Tail(segs[1..][1..])) == segs[0] + ("/" + segs[1] + Tail(segs[1..][1..]));
    } else {
      assert segs[0] + "" == segs[0];
    }
  }

  lemma MatchedSegment(seg: string, rest: string)
    requires '/' !in seg && '\n' !in seg && (rest == "" || rest[0] == '/')
    ensures MatchedDigits(seg + rest) == if Numeric(seg) then |seg| else 0
  {
    DigitsOfSegment(seg, rest);
    var t := seg + rest;
    var n := LeadingDigits(t);
    if Numeric(seg) {
      assert t[n..] == rest;
    } else if n > 0 {
      assert t[n] == seg[n];
      assert t[n..][0] == seg[n];
    }
  }

  /** One segment with its slash, in front of the rest. */
  lemma NormalizeSegment(seg: string, rest: string)
    requires '/' !in seg && '\n' !in seg && (rest == "" || rest[0] == '/')
    ensures Normalize("/" + seg + rest) == if Numeric(seg) then Replaced(rest) else "/" + (seg + Normalize(rest))
  {
    var s := "/" + seg + rest;
    assert s[1..] == seg + rest;
    assert s[1 + |seg|..] == rest;
    MatchedSegment(seg, rest);
    SegmentIsCopied(seg, rest);
  }

  lemma TailOfCons(seg: string, more: seq<string>)
    ensures Tail([seg] + more) == "/" + (seg + Tail(more))
  {
    assert ([seg] + more)[1..] == more;
    assert "/" + seg + Tail(more) == "/" + (seg + Tail(more));
  }

  /** The scan is the alternating replacement, from a slash ... */
  lemma {:induction false} ScanFromSlash(segs: seq<string>)
    requires Plain(segs)
    ensures Normalize(Tail(segs)) == Tail(Alternate(segs, true))
    decreases |segs|, 0
  {
    if segs != [] {
      var seg, more := segs[0], segs[1..];
      assert Plain(more);
      assert Tail(segs) == "/" + seg + Tail(more);
      NormalizeSegment(seg, Tail(more));
      if Numeric(seg) {
        ScanAfterMatch(more);
        TailOfCons(PLACEHOLDER, Alternate(more, false));
      } else {
        ScanFromSlash(more);
        TailOfCons(seg, Alternate(more, true));
      }
    }
  }

  lemma ReplacedAtSlash(text: string)
    ensures Replaced("/" + text) == "/" + (PLACEHOLDER + ("/" + Normalize(text)))
  {
    assert ("/" + text)[1..] == text;
  }

  lemma {:induction false} ScanAfterMatch(more: seq<string>)
    requires Plain(more)
    ensures Replaced(Tail(more)) == "/" + (PLACEHOLDER + Tail(Alternate(more, false)))
    decreases |more|, 2
  {
    if more == [] {
      assert Replaced("") == "/" + PLACEHOLDER + "";
    } else {
      ScanAfterSlash(more);
      var a := Alternate(more, false);
      var text := more[0] + Tail(more[1..]);
      assert Tail(more) == "/" + text by { TailOfCons(more[0], more[1..]); assert more == [more[0]] + more[1..]; }
      assert Tail(a) == "/" + (a[0] + Tail(a[1..])) by { TailOfCons(a[0], a[1..]); assert a == [a[0]] + a[1..]; }
      ReplacedAtSlash(text);
    }
  }

  /** ... and from just after one that was swallowed, or from the start of the path. */
  lemma {:induction false} ScanAfterSlash(segs: seq<string>)
    requires Plain(segs) && segs != []
    ensures Normalize(segs[0] + Tail(segs[1..])) == Alternate(segs, false)[0] + Tail(Alternate(segs, false)[1..])
    decreases |segs|, 1
  {
    var more := segs[1..];
    assert Plain(more);
    SegmentIsCopied(segs[0], Tail(more));
    ScanFromSlash(more);
    assert Alternate(segs, false)[1..] == Alternate(more, true);
  }

  /** On every newline-free path, the character scan is the pass over its slash-separated parts. */
  lemma NormalizeIsPass(path: string)
    requires '\n' !in path
    ensures Normalize(path) == Join(Pass(Split(path, '/')), '/')
    ensures Split(Normalize(path), '/') == Pass(Split(path, '/'))
  {
    var segs := Split(path, '/');
    JoinOfSplit(path, '/');
    SplitIsPlain(path);
    JoinIsHeadAndTail(segs);
    ScanAfterSlash(segs);
    JoinIsHeadAndTail(Pass(segs));
    AlternateStaysPlain(segs, false);
    SplitOfJoin(Pass(segs), '/');
  }

  lemma {:induction false} SplitIsPlain(path: string)
    requires '\n' !in path
    ensures Plain(Split(path, '/'))
  {
    if path != "" { SplitIsPlain(path[1..]); }
  }

  lemma {:induction false} AlternateStaysPlain(segs: seq<string>, open: bool)
    requires Plain(segs)
    ensures Plain(Alternate(segs, open))
  {
    if segs != [] {
      AlternateStaysPlain(segs[1..], false);
      AlternateStaysPlain(segs[1..], true);
    }
  }

  /** A path of one numeric segment is `/{id}`, also in front of a newline that ends it. */
  lemma NumericSegmentBecomesId(seg: string)
    requires Numeric(seg)
    ensures Normalize("/" + seg) == "/{id}" && Normalize("/" + seg + "\n") == "/{id}\n"
  {
    RunOfDigits(seg, "");
    assert seg + "" == seg && ("/" + seg)[1..] == seg && seg[|seg|..] == "";
    assert ("/" + seg)[1 + |seg|..] == "";
    RunOfDigits(seg, "\n");
    var line := "/" + seg + "\n";
    assert line[1..] == seg + "\n" && (seg + "\n")[|seg|..] == "\n" && line[1 + |seg|..] == "\n";
    assert "\n"[1..] == "" && Normalize("") == "" && Normalize("\n") == "\n";
  }

  lemma {:induction false} RunOfDigits(seg: string, rest: string)
    requires (forall i :: 0 <= i < |seg| ==> IsDigit(seg[i])) && (rest == "" || !IsDigit(rest[0]))
    ensures LeadingDigits(seg + rest) == |seg|
  {
    if seg == "" {
      assert seg + rest == rest;
    } else {
      assert (seg + rest)[1..] == seg[1..] + rest;
      RunOfDigits(seg[1..], rest);
    }
  }

  // ------------------------------------------------------------------ which segments are replaced

  /** How many numeric segments stand directly before segment `i`, not counting the part before the first slash. */
  function RunBefore(segs: seq<string>, i: nat): nat
    requires i < |segs|
  {
    if i <= 1 || !Numeric(segs[i - 1]) then 0 else 1 + RunBefore(segs, i - 1)
  }

  /**
    In each maximal run of adjacent numeric segments exactly the 1st, 3rd, 5th, ... are
    replaced; everything else stays.
  */
  lemma {:induction false} OddOnesAreReplaced(segs: seq<string>, i: nat)
    requires i < |segs|
    ensures Pass(segs)[i] == if i > 0 && Numeric(segs[i]) && RunBefore(segs, i) % 2 == 0 then PLACEHOLDER else segs[i]
  {
    AlternateAt(segs, false, i);
    if i > 0 { OpenFollowsParity(segs, i); }
  }

  /** Whether the slash before segment `i` is still there. */
  function OpenAt(segs: seq<string>, open: bool, i: nat): bool
    requires i <= |segs|
  {
    if i == 0 then open else !(OpenAt(segs, open, i - 1) && Numeric(segs[i - 1]))
  }

  lemma {:induction false} AlternateAt(segs: seq<string>, open: bool, i: nat)
    requires i < |segs|
    ensures Alternate(segs, open)[i] == if OpenAt(segs, open, i) && Numeric(segs[i]) then PLACEHOLDER else segs[i]
  {
    if i > 0 {
      var next := !(open && Numeric(segs[0]));
      AlternateAt(segs[1..], next, i - 1);
      OpenShifts(segs, open, i);
    }
  }

  lemma {:induction false} OpenShifts(segs: seq<string>, open: bool, i: nat)
    requires 0 < i < |segs|
    ensures OpenAt(segs, open, i) == OpenAt(segs[1..], !(open && Numeric(segs[0])), i - 1)
  {
    if i > 1 { OpenShifts(segs, open, i - 1); }
  }

  lemma {:induction false} OpenFollowsParity(segs: seq<string>, i: nat)
    requires 0 < i < |segs|
    ensures OpenAt(segs, false, i) <==> RunBefore(segs, i) % 2 == 0
  {
    if i > 1 { OpenFollowsParity(segs, i - 1); }
  }

  // ------------------------------------------------------------------ repeating the pass

  predicate NoAdjacentNumeric(segs: seq<string>) {
    forall i :: 1 <= i < |segs| - 1 ==> !(Numeric(segs[i]) && Numeric(segs[i + 1]))
  }

  predicate NoNumeric(segs: seq<string>) {
    forall i :: 1 <= i < |segs| ==> !Numeric(segs[i])
  }

  lemma PassWithoutNumeric(segs: seq<string>)
    requires NoNumeric(segs)
    ensures Pass(segs) == segs
  {
    forall i | 0 <= i < |segs|
      ensures Pass(segs)[i] == segs[i]
    {
      OddOnesAreReplaced(segs, i);
    }
  }

  /** One pass leaves no two adjacent numeric segments. */
  lemma PassSeparates(segs: seq<string>)
    ensures NoAdjacentNumeric(Pass(segs))
  {
    forall i | 1 <= i < |segs| - 1
      ensures !(Numeric(Pass(segs)[i]) && Numeric(Pass(segs)[i + 1]))
    {
      OddOnesAreReplaced(segs, i);
      OddOnesAreReplaced(segs, i + 1);
      assert !IsDigit(PLACEHOLDER[0]);
    }
  }

  /** Without adjacent numeric segments one pass replaces them all. */
  lemma PassClearsSeparated(segs: seq<string>)
    requires NoAdjacentNumeric(segs)
    ensures NoNumeric(Pass(segs))
  {
    forall i | 1 <= i < |segs|
      ensures !Numeric(Pass(segs)[i])
    {
      OddOnesAreReplaced(segs, i);
      assert !IsDigit(PLACEHOLDER[0]);
      assert i > 1 ==> !(Numeric(segs[i - 1]) && Numeric(segs[i]));
    }
  }

  /** And it is then the segment-wise map. */
  lemma SeparatedPassIsSegmentwise(segs: seq<string>, i: nat)
    requires NoAdjacentNumeric(segs) && i < |segs|
    ensures Pass(segs)[i] == if i > 0 && Numeric(segs[i]) then PLACEHOLDER else segs[i]
  {
    OddOnesAreReplaced(segs, i);
    assert i > 1 ==> !(Numeric(segs[i - 1]) && Numeric(segs[i]));
  }

  lemma OnePassClearsIff(segs: seq<string>)
    ensures NoNumeric(Pass(segs)) <==> NoAdjacentNumeric(segs)
  {
    if NoAdjacentNumeric(segs) {
      PassClearsSeparated(segs);
    } else {
      var i :| 1 <= i < |segs| - 1 && Numeric(segs[i]) && Numeric(segs[i + 1]);
      OddOnesAreReplaced(segs, i);
      OddOnesAreReplaced(segs, i + 1);
      assert RunBefore(segs, i + 1) == 1 + RunBefore(segs, i);
    }
  }

  /** Exactly when one pass is enough: no two adjacent numeric segments; then the pass is idempotent. */
  lemma OnePassIsEnoughIff(path: string)
    requires '\n' !in path
    ensures NoNumeric(Split(Normalize(path), '/')) <==> NoAdjacentNumeric(Split(path, '/'))
    ensures NoAdjacentNumeric(Split(path, '/')) ==> Normalize(Normalize(path)) == Normalize(path)
  {
    NormalizeIsPass(path);
    OnePassClearsIff(Split(path, '/'));
    if NoAdjacentNumeric(Split(path, '/')) {
      ClearedIsFixed(path);
    }
  }

  lemma ClearedIsFixed(path: string)
    requires '\n' !in path && NoNumeric(Split(Normalize(path), '/'))
    ensures Normalize(Normalize(path)) == Normalize(path)
  {
    NewlineStaysOut(path);
    NormalizeIsPass(Normalize(path));
    PassWithoutNumeric(Split(Normalize(path), '/'));
    JoinOfSplit(Normalize(path), '/');
  }

  lemma NewlineStaysOut(path: string)
    requires '\n' !in path
    ensures '\n' !in Normalize(path)
  {
    NormalizeIsPass(path);
    SplitIsPlain(path);
    AlternateStaysPlain(Split(path, '/'), false);
    PlainJoin(Pass(Split(path, '/')));
  }

  lemma {:induction false} PlainJoin(segs: seq<string>)
    requires segs != [] && Plain(segs)
    ensures '\n' !in Join(segs, '/')
  {
    if |segs| > 1 { PlainJoin(segs[1..]); }
  }

  /** Two passes reach a fixpoint on every newline-free path, with no numeric segment left after the first slash. */
  lemma TwoPassesReachAFixpoint(path: string)
    requires '\n' !in path
    ensures
      var twice := Normalize(Normalize(path));
      NoNumeric(Split(twice, '/')) && Normalize(twice) == twice
  {
    NormalizeIsPass(path);
    NewlineStaysOut(path);
    PassSeparates(Split(path, '/'));
    OnePassIsEnoughIff(Normalize(path));
  }
}
