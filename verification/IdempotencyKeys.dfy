/**
  The cache keys of the idempotency service: `idempotency:<namespace>:<sha256 hex>` for the
  completed result, the same with `:in_progress` for the marker, and the SCAN pattern that
  finds the markers of a namespace.  SHA-256 itself is a parameter (a function into 64
  lower-case hex digits); it has collisions, so where it matters two given keys are assumed
  not to collide.
*/
module IdempotencyKeys {
  import opened Wrappers

  const CACHE_PREFIX := "idempotency"
  const IN_PROGRESS_SUFFIX := ":in_progress"
  const HASH_LENGTH := 64

  predicate IsHex(c: char) {
    '0' <= c <= '9' || 'a' <= c <= 'f'
  }

  predicate IsHash(s: string) {
    |s| == HASH_LENGTH && forall i :: 0 <= i < |s| ==> IsHex(s[i])
  }

  type Hash = s: string | IsHash(s) witness seq(64, _ => '0')

  /** Completed keys end in a hash, hence in a hex digit. */
  type BaseKey = s: string | |s| > 0 && IsHex(s[|s| - 1]) witness "0"

  /** `if namespace:` makes the empty namespace the same as none. */
  function Namespace(ns: Option<string>): Option<string> {
    if ns == Some("") then None else ns
  }

  function Lead(ns: Option<string>): string {
    match Namespace(ns)
    case Some(n) => CACHE_PREFIX + ":" + n + ":"
    case None => CACHE_PREFIX + ":"
  }

  function BuildKey(hash: Hash, ns: Option<string>): (key: BaseKey)
    ensures |key| == |Lead(ns)| + HASH_LENGTH && key[|Lead(ns)|..] == hash
  {
    var key := Lead(ns) + hash;
    assert key[|Lead(ns)|..] == hash;
    assert key[|key| - 1] == hash[HASH_LENGTH - 1];
    key
  }

  function MarkerOf(key: BaseKey): string {
    key + IN_PROGRESS_SUFFIX
  }

  /** Namespaces equal up to "" being none. */
  predicate SameNamespace(ns1: Option<string>, ns2: Option<string>) {
    ns1 == ns2 || (ns1 in {None, Some("")} && ns2 in {None, Some("")})
  }

  /** What decides whether two requests meet at the same keys: the same namespace, and equal hashes. */
  lemma KeysAreInjective(h1: Hash, ns1: Option<string>, h2: Hash, ns2: Option<string>)
    ensures BuildKey(h1, ns1) == BuildKey(h2, ns2) <==> h1 == h2 && SameNamespace(ns1, ns2)
    ensures MarkerOf(BuildKey(h1, ns1)) == MarkerOf(BuildKey(h2, ns2)) <==> h1 == h2 && SameNamespace(ns1, ns2)
  {
    var k1, k2 := BuildKey(h1, ns1), BuildKey(h2, ns2);
    MarkersAreInjective(k1, k2);
    if k1 == k2 {
      assert |Lead(ns1)| == |Lead(ns2)|;
      assert h1 == h2;
      assert k1[..|Lead(ns1)|] == Lead(ns1) && k2[..|Lead(ns2)|] == Lead(ns2);
      LeadsAreInjective(ns1, ns2);
    }
  }

  /** The layout of the keys. */
  lemma KeyLayout(h: Hash, ns: string)
    ensures BuildKey(h, None) == "idempotency:" + h
    ensures ns != "" ==> BuildKey(h, Some(ns)) == "idempotency:" + ns + ":" + h
    ensures MarkerOf(BuildKey(h, None)) == "idempotency:" + h + ":in_progress"
  {
    assert "idempotency:" == CACHE_PREFIX + ":";
    assert Lead(Some(ns)) == (if ns == "" then CACHE_PREFIX + ":" else CACHE_PREFIX + ":" + ns + ":");
  }

  lemma LeadsAreInjective(ns1: Option<string>, ns2: Option<string>)
    requires Lead(ns1) == Lead(ns2)
    ensures Namespace(ns1) == Namespace(ns2)
  {
    var from := |CACHE_PREFIX| + 1;
    match (Namespace(ns1), Namespace(ns2)) {
      case (Some(n1), Some(n2)) =>
        assert n1 == Lead(ns1)[from..from + |n1|];
        assert n2 == Lead(ns2)[from..from + |n2|];
      case (_, _) =>
    }
  }

  /** Any two completed keys have different markers, and no marker is anybody's completed key. */
  lemma MarkersAreInjective(a: BaseKey, b: BaseKey)
    ensures MarkerOf(a) == MarkerOf(b) <==> a == b
    ensures MarkerOf(a) != b
  {
    var m := MarkerOf(a);
    assert m[|m| - 1] == IN_PROGRESS_SUFFIX[|IN_PROGRESS_SUFFIX| - 1] == 's';
    assert m[..|a|] == a;
    if m == MarkerOf(b) {
      assert |a| == |b|;
      assert MarkerOf(b)[..|b|] == b;
    }
  }

  /** No two of the external keys in use collide in the digest. */
  ghost predicate CollisionFree(sha: string -> Hash, used: set<string>) {
    forall k1, k2 :: k1 in used && k2 in used && sha(k1) == sha(k2) ==> k1 == k2
  }

  /** Two requests meet at one cache key only if they are the same request. */
  predicate Apart(sha: string -> Hash, k1: string, ns1: Option<string>, k2: string, ns2: Option<string>) {
    BuildKey(sha(k1), ns1) == BuildKey(sha(k2), ns2) ==> k1 == k2 && SameNamespace(ns1, ns2)
  }

  /** What the digest has to do, exactly: not collide on the external keys in use. */
  lemma ExternalKeysAreInjectiveIff(sha: string -> Hash, used: set<string>)
    ensures CollisionFree(sha, used) <==>
            forall k1, ns1, k2, ns2 :: k1 in used && k2 in used ==> Apart(sha, k1, ns1, k2, ns2)
  {
    forall k1, ns1, k2, ns2 | k1 in used && k2 in used && CollisionFree(sha, used)
      ensures Apart(sha, k1, ns1, k2, ns2)
    {
      KeysAreInjective(sha(k1), ns1, sha(k2), ns2);
    }
    if !CollisionFree(sha, used) {
      var k1, k2 :| k1 in used && k2 in used && sha(k1) == sha(k2) && k1 != k2;
      assert !Apart(sha, k1, None, k2, None);
    }
  }

  // ------------------------------------------------------------------ glob patterns

  /** Redis MATCH for patterns of literals, `?` and `*`. */
  predicate Glob(pattern: string, s: string)
    decreases |pattern|, |s|
  {
    if pattern == "" then s == ""
    else if pattern[0] == '*' then Glob(pattern[1..], s) || (s != "" && Glob(pattern, s[1..]))
    else s != "" && (pattern[0] == '?' || pattern[0] == s[0]) && Glob(pattern[1..], s[1..])
  }

  /** `?` stands for exactly one character, `*` for any number. */
  lemma WildcardsMean(s: string)
    ensures Glob("?", s) <==> |s| == 1
    ensures Glob("*", s)
    decreases |s|
  {
    assert "?"[1..] == "" && "*"[1..] == "";
    if s != "" { WildcardsMean(s[1..]); }
  }

  /** No character that MATCH treats specially. */
  predicate Literal(p: string) {
    forall i :: 0 <= i < |p| ==> p[i] !in "*?[]\\"
  }

  lemma {:induction false} LiteralMatchesItself(p: string, s: string)
    requires Literal(p)
    ensures Glob(p, s) <==> p == s
  {
    if p != "" && s != "" {
      LiteralMatchesItself(p[1..], s[1..]);
      assert p == [p[0]] + p[1..] && s == [s[0]] + s[1..];
    }
  }

  lemma {:induction false} StarThenLiteral(tail: string, s: string)
    requires Literal(tail)
    ensures Glob("*" + tail, s) <==> |s| >= |tail| && s[|s| - |tail|..] == tail
    decreases |s|
  {
    assert ("*" + tail)[1..] == tail;
    LiteralMatchesItself(tail, s);
    if s != "" {
      StarThenLiteral(tail, s[1..]);
      if |s| > |tail| {
        assert s[1..][|s| - 1 - |tail|..] == s[|s| - |tail|..];
      }
    }
    if |s| == |tail| {
      assert s[0..] == s;
    }
  }

  /** literal * literal: the string starts with one, ends with the other, and they do not overlap. */
  lemma {:induction false} LiteralStarLiteral(head: string, tail: string, s: string)
    requires Literal(head) && Literal(tail)
    ensures Glob(head + "*" + tail, s) <==> |s| >= |head| + |tail| && head <= s && s[|s| - |tail|..] == tail
    decreases |head|
  {
    var p := head + "*" + tail;
    if head == "" {
      assert p == "*" + tail;
      StarThenLiteral(tail, s);
    } else {
      assert p[0] == head[0] && p[1..] == head[1..] + "*" + tail;
      if s != "" {
        LiteralStarLiteral(head[1..], tail, s[1..]);
        if |s| > |tail| {
          assert s[1..][|s| - 1 - |tail|..] == s[|s| - |tail|..];
        }
        assert head <= s <==> head[0] == s[0] && head[1..] <= s[1..];
      }
    }
  }

  /** The pattern get_stuck_in_progress_count and cleanup_stuck_in_progress scan for. */
  function MarkerPattern(ns: Option<string>): string {
    Lead(ns) + "*" + IN_PROGRESS_SUFFIX
  }

  /** A pattern that ends in an ordinary character only matches what ends in it too. */
  lemma {:induction false} MatchKeepsTheLastCharacter(pattern: string, s: string)
    requires pattern != "" && pattern[|pattern| - 1] !in "*?" && Glob(pattern, s)
    ensures s != "" && s[|s| - 1] == pattern[|pattern| - 1]
    decreases |pattern|, |s|
  {
    if pattern[0] == '*' {
      if Glob(pattern[1..], s) {
        MatchKeepsTheLastCharacter(pattern[1..], s);
      } else {
        MatchKeepsTheLastCharacter(pattern, s[1..]);
      }
    } else if |pattern| > 1 {
      MatchKeepsTheLastCharacter(pattern[1..], s[1..]);
    }
  }

  /** The pattern of `ns`, whatever wildcards the namespace itself holds, never selects a completed result. */
  lemma PatternSparesCompleted(ns: Option<string>, key: BaseKey)
    ensures !Glob(MarkerPattern(ns), key)
  {
    var pattern := MarkerPattern(ns);
    assert pattern[|pattern| - 1] == IN_PROGRESS_SUFFIX[|IN_PROGRESS_SUFFIX| - 1] == 's';
    if Glob(pattern, key) {
      MatchKeepsTheLastCharacter(pattern, key);
      assert false;
    }
  }

  predicate Nested(ns: string, other: string) {
    other == ns || ns + ":" <= other
  }

  /**
    The pattern of a named namespace selects its own markers and those of every namespace
    that extends it with a colon, and no others; the pattern of no namespace selects every marker.
  */
  lemma PatternSelects(ns: Option<string>, hash: Hash, other: Option<string>)
    requires Literal(Lead(ns))
    ensures Glob(MarkerPattern(ns), MarkerOf(BuildKey(hash, other))) <==>
            Namespace(ns).None? || (Namespace(other).Some? && Nested(Namespace(ns).value, Namespace(other).value))
  {
    var m := MarkerOf(BuildKey(hash, other));
    var lead := CACHE_PREFIX + ":";
    LiteralStarLiteral(Lead(ns), IN_PROGRESS_SUFFIX, m);
    assert m[|m| - |IN_PROGRESS_SUFFIX|..] == IN_PROGRESS_SUFFIX;
    match Namespace(ns) {
      case None =>
        assert Lead(ns) == lead == m[..|lead|];
      case Some(n) =>
        var own := m[|lead|..];
        assert m == lead + own && Lead(ns) == lead + (n + ":");
        CommonLead(lead, n + ":", own);
        NamedPatternSelects(n, hash, other, own);
    }
  }

  lemma CommonLead(lead: string, a: string, b: string)
    ensures lead + a <= lead + b <==> a <= b
  {
    assert (lead + b)[|lead|..] == b;
    if lead + a <= lead + b {
      assert (lead + a)[|lead|..] == a;
    }
  }

  /** `own` is the marker without the common prefix. */
  lemma NamedPatternSelects(n: string, hash: Hash, other: Option<string>, own: string)
    requires CACHE_PREFIX + ":" + own == MarkerOf(BuildKey(hash, other))
    ensures n + ":" <= own && |own| >= |n| + 1 + |IN_PROGRESS_SUFFIX| <==>
            Namespace(other).Some? && Nested(n, Namespace(other).value)
  {
    var lead := CACHE_PREFIX + ":";
    assert (lead + own)[|lead|..] == own;
    match Namespace(other) {
      case None =>
        assert MarkerOf(BuildKey(hash, other)) == lead + (hash + IN_PROGRESS_SUFFIX);
        assert own == "" + hash + IN_PROGRESS_SUFFIX;
        NoColonInHash(n, "", hash, own);
      case Some(o) =>
        assert MarkerOf(BuildKey(hash, other)) == lead + (o + ":" + hash + IN_PROGRESS_SUFFIX);
        assert own == o + ":" + hash + IN_PROGRESS_SUFFIX;
        NamedMarker(n, o, hash, own);
    }
  }

  /** A prefix `n:` that reaches into the hash would have to end at a colon inside it. */
  lemma NoColonInHash(n: string, before: string, hash: Hash, own: string)
    requires own == before + hash + IN_PROGRESS_SUFFIX
    requires |before| <= |n|
    ensures !(n + ":" <= own && |own| >= |n| + 1 + |IN_PROGRESS_SUFFIX|)
  {
    if |own| >= |n| + 1 + |IN_PROGRESS_SUFFIX| {
      assert own[|n|] == hash[|n| - |before|];
      assert (n + ":")[|n|] == ':';
    }
  }

  lemma NamedMarker(n: string, o: string, hash: Hash, own: string)
    requires own == o + ":" + hash + IN_PROGRESS_SUFFIX
    ensures n + ":" <= own && |own| >= |n| + 1 + |IN_PROGRESS_SUFFIX| <==> Nested(n, o)
  {
    if |n| > |o| {
      assert own == (o + ":") + hash + IN_PROGRESS_SUFFIX;
      NoColonInHash(n, o + ":", hash, own);
    } else if |n| == |o| {
      assert own[..|n|] == o && own[|n|] == ':';
      assert own[..|n| + 1] == o + ":";
      if n + ":" <= own {
        assert n == own[..|n|];
      }
    } else {
      assert own[..|n| + 1] == o[..|n| + 1];
    }
  }
}
