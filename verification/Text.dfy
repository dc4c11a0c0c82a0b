/** str.split on one character, its inverse str.join, str.strip, and ASCII digits. */
module Text {
  predicate IsDigit(c: char) {
    '0' <= c <= '9'
  }

  predicate Numeric(s: string) {
    s != "" && forall i :: 0 <= i < |s| ==> IsDigit(s[i])
  }

  function Split(s: string, sep: char): (r: seq<string>)
    ensures |r| >= 1
    ensures forall i :: 0 <= i < |r| ==> sep !in r[i]
  {
    if s == "" then [""]
    else
      var rest := Split(s[1..], sep);
      if s[0] == sep then [""] + rest else [[s[0]] + rest[0]] + rest[1..]
  }

  function Join(parts: seq<string>, sep: char): string
    requires parts != []
  {
    if |parts| == 1 then parts[0] else parts[0] + [sep] + Join(parts[1..], sep)
  }

  /** Splitting a concatenation across a separator. */
  lemma {:induction false} SplitAcross(p: string, sep: char, x: string)
    ensures Split(p + [sep] + x, sep) == Split(p, sep) + Split(x, sep)
  {
    var s := p + [sep] + x;
    if p == "" {
      assert s[1..] == x;
    } else {
      assert s[1..] == p[1..] + [sep] + x;
      SplitAcross(p[1..], sep, x);
    }
  }

  lemma {:induction false} SplitWithout(s: string, sep: char)
    requires sep !in s
    ensures Split(s, sep) == [s]
  {
    if s != "" {
      SplitWithout(s[1..], sep);
      assert [s[0]] + s[1..] == s;
    }
  }

  /** Split undoes join on parts free of the separator. */
  lemma {:induction false} SplitOfJoin(parts: seq<string>, sep: char)
    requires parts != [] && forall i :: 0 <= i < |parts| ==> sep !in parts[i]
    ensures Split(Join(parts, sep), sep) == parts
  {
    SplitWithout(parts[0], sep);
    if |parts| > 1 {
      SplitAcross(parts[0], sep, Join(parts[1..], sep));
      SplitOfJoin(parts[1..], sep);
    }
  }

  /** Join undoes split on every string. */
  lemma {:induction false} JoinOfSplit(s: string, sep: char)
    ensures Join(Split(s, sep), sep) == s
  {
    if s != "" {
      var rest := Split(s[1..], sep);
      JoinOfSplit(s[1..], sep);
      if s[0] == sep {
        assert ([""] + rest)[1..] == rest;
      } else {
        var r := [[s[0]] + rest[0]] + rest[1..];
        assert r[1..] == rest[1..];
      }
    }
  }

  /** The white space of str.strip within Latin-1, the range header values are decoded to. */
  predicate IsSpace(c: char) {
    c == ' ' || 0x09 <= c as int <= 0x0d || 0x1c <= c as int <= 0x1f || c as int == 0x85 || c as int == 0xa0
  }

  function StripLeft(s: string): string {
    if s != "" && IsSpace(s[0]) then StripLeft(s[1..]) else s
  }

  function StripRight(s: string): string {
    if s != "" && IsSpace(s[|s| - 1]) then StripRight(s[..|s| - 1]) else s
  }

  function Strip(s: string): string {
    StripRight(StripLeft(s))
  }

  lemma {:induction false} StripRightIsPrefix(s: string)
    ensures StripRight(s) <= s
    ensures StripRight(s) == "" || !IsSpace(StripRight(s)[|StripRight(s)| - 1])
  {
    if s != "" && IsSpace(s[|s| - 1]) { StripRightIsPrefix(s[..|s| - 1]); }
  }

  lemma {:induction false} StripLeftIsSuffix(s: string)
    ensures StripLeft(s) == "" || !IsSpace(StripLeft(s)[0])
  {
    if s != "" && IsSpace(s[0]) { StripLeftIsSuffix(s[1..]); }
  }

  /** The digits, and the white space of Latin-1, by their codes. */
  lemma CharacterClasses(c: char)
    ensures IsDigit(c) <==> c in "0123456789"
    ensures IsSpace(c) <==> c as int in {9, 10, 11, 12, 13, 28, 29, 30, 31, 32, 133, 160}
  {
  }

  lemma {:induction false} StripLeftDrops(s: string) returns (n: nat)
    ensures n <= |s| && s[n..] == StripLeft(s) && forall i :: 0 <= i < n ==> IsSpace(s[i])
  {
    n := 0;
    if s != "" && IsSpace(s[0]) {
      var m := StripLeftDrops(s[1..]);
      n := m + 1;
      assert s[n..] == s[1..][m..];
      assert forall i :: 1 <= i < n ==> s[i] == s[1..][i - 1];
    }
  }

  lemma {:induction false} StripRightDrops(s: string)
    ensures forall i :: |StripRight(s)| <= i < |s| ==> IsSpace(s[i])
  {
    StripRightIsPrefix(s);
    if s != "" && IsSpace(s[|s| - 1]) {
      StripRightDrops(s[..|s| - 1]);
      assert forall i :: 0 <= i < |s| - 1 ==> s[i] == s[..|s| - 1][i];
    }
  }

  /** `inner` stands in `s` at `n`, and all around it is white space. */
  ghost predicate IsSpaceAround(s: string, n: nat, inner: string) {
    && n + |inner| <= |s| && s[n..n + |inner|] == inner
    && forall i :: 0 <= i < |s| && (i < n || n + |inner| <= i) ==> IsSpace(s[i])
  }

  /** All that stripping takes away is white space at the two ends. */
  lemma StripOnlyDropsSpace(s: string)
    ensures exists n: nat :: IsSpaceAround(s, n, Strip(s))
  {
    var n := StripLeftDrops(s);
    StripRightIsPrefix(s[n..]);
    StripRightDrops(s[n..]);
    assert s[n..n + |Strip(s)|] == s[n..][..|Strip(s)|];
    assert forall i :: n <= i < |s| ==> s[i] == s[n..][i - n];
    assert IsSpaceAround(s, n, Strip(s));
  }

  /** Stripping leaves no white space at either end, so a second strip changes nothing. */
  lemma StripIsIdempotent(s: string)
    ensures Strip(s) == "" || (!IsSpace(Strip(s)[0]) && !IsSpace(Strip(s)[|Strip(s)| - 1]))
    ensures Strip(Strip(s)) == Strip(s)
  {
    StripLeftIsSuffix(s);
    StripRightIsPrefix(StripLeft(s));
  }
}
