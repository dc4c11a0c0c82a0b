/**
  cleanup_stuck_in_progress: SCAN for markers and delete what it returns, up to a limit.
  The replies of SCAN are an input; they may repeat keys, and a reply may be an error.  A
  DEL may raise as well, executed or not.
*/
module MarkerCleanup {
  import opened Wrappers
  import opened TimedStore
  import opened IdempotencyKeys
  import opened IdempotencyService

  datatype ScanReply = Keys(cursor: nat, keys: seq<string>) | ScanError

  /** The keys of the replies up to the one with cursor 0, or up to an error. */
  function Visited(replies: seq<ScanReply>): seq<string> {
    if replies == [] || replies[0].ScanError? then []
    else if replies[0].cursor == 0 then replies[0].keys
    else replies[0].keys + Visited(replies[1..])
  }

  /** Some reply ends the pass: cursor 0, or an error. */
  predicate Ends(replies: seq<ScanReply>) {
    replies != [] && (replies[0].ScanError? || replies[0].cursor == 0 || Ends(replies[1..]))
  }

  predicate Completes(replies: seq<ScanReply>) {
    replies != [] && replies[0].Keys? && (replies[0].cursor == 0 || Completes(replies[1..]))
  }

  function Capped(keys: seq<string>, limit: int): (r: seq<string>)
    ensures |r| <= |keys| && (limit > 0 ==> |r| <= limit)
  {
    if limit <= 0 then [] else if |keys| <= limit then keys else keys[..limit]
  }

  lemma CappedPrefix(a: seq<string>, b: seq<string>, limit: int)
    requires limit <= |a|
    ensures Capped(a + b, limit) == Capped(a, limit)
  {
    if limit > 0 {
      assert (a + b)[..limit] == a[..limit];
      assert a[..|a|] == a;
    }
    assert |a + b| == limit ==> a + b == a;
  }

  lemma RemoveOneMore(s: Store, keys: seq<string>, k: string)
    ensures Remove(Remove(s, KeysOf(keys)), {k}) == Remove(s, KeysOf(keys + [k]))
  {
    assert KeysOf(keys + [k]) == KeysOf(keys) + {k};
  }

  lemma {:induction false} OpenRepliesDoNotEnd(replies: seq<ScanReply>)
    requires Open(replies)
    ensures !Ends(replies)
  {
    if replies != [] { OpenRepliesDoNotEnd(replies[1..]); }
  }

  /** The DEL that raises, if one does: after `n` that went well, executed on the server or not. */
  datatype Loss = Never | After(n: nat, executed: bool)

  /** How many deletes are counted at most ... */
  function CountLimit(maxCleanup: int, loss: Loss): int {
    if loss.After? && loss.n < maxCleanup then loss.n else maxCleanup
  }

  /** ... and how many are executed at most. */
  function DeleteLimit(maxCleanup: int, loss: Loss): int {
    if loss.After? && loss.n < maxCleanup && loss.executed then loss.n + 1 else CountLimit(maxCleanup, loss)
  }

  /**
    What the two limits come to: without a DEL that raises, up to `maxCleanup` keys from the
    front are deleted and all of them counted; with one, those before it are, and the one
    itself is deleted without being counted if it was executed.
  */
  lemma CountsWhatItDeletes(keys: seq<string>, maxCleanup: int, loss: Loss)
    ensures
      var counted, deleted := Capped(keys, CountLimit(maxCleanup, loss)), Capped(keys, DeleteLimit(maxCleanup, loss));
      var raises := loss.After? && loss.n < maxCleanup && loss.n < |keys|;
      && counted == keys[..|counted|] && deleted == keys[..|deleted|]
      && |counted| == (if raises then loss.n
                       else if maxCleanup <= 0 then 0
                       else if |keys| < maxCleanup then |keys| else maxCleanup)
      && |deleted| == |counted| + if raises && loss.executed then 1 else 0
  {
  }

  /**
    The replies reach as far as the loop looks: to cursor 0 or an error, to the limit, or to
    the DEL that raises.  SCAN guarantees the first once the keys stop changing; without any
    of them the loop would go on.
  */
  predicate Stops(replies: seq<ScanReply>, maxCleanup: int, loss: Loss) {
    || Ends(replies)
    || |Visited(replies)| >= maxCleanup
    || (loss.After? && |Visited(replies)| > loss.n)
  }

  lemma {:induction false} VisitedOfMore(replies: seq<ScanReply>, more: seq<ScanReply>)
    ensures Visited(replies + more) == if Ends(replies) then Visited(replies) else Visited(replies) + Visited(more)
  {
    if replies == [] {
      assert replies + more == more;
    } else {
      VisitedOfMore(replies[1..], more);
      assert (replies + more)[1..] == replies[1..] + more;
    }
  }

  predicate Open(replies: seq<ScanReply>) {
    forall i :: 0 <= i < |replies| ==> replies[i].Keys? && replies[i].cursor != 0
  }

  lemma VisitedSplit(replies: seq<ScanReply>, n: nat)
    requires n <= |replies| && Open(replies[..n])
    ensures Visited(replies) == Visited(replies[..n]) + Visited(replies[n..])
  {
    OpenRepliesDoNotEnd(replies[..n]);
    VisitedOfMore(replies[..n], replies[n..]);
    assert replies[..n] + replies[n..] == replies;
  }

  lemma VisitedOneMore(before: seq<ScanReply>, reply: ScanReply)
    requires Open(before) && reply.Keys?
    ensures Visited(before + [reply]) == Visited(before) + reply.keys
  {
    OpenRepliesDoNotEnd(before);
    VisitedOfMore(before, [reply]);
    assert [reply][1..] == [];
    assert Visited([reply]) == reply.keys + [] || Visited([reply]) == reply.keys;
  }

  /** The loop stops at the first of these; replies after that do not matter. */
  lemma LaterRepliesDoNotMatter(replies: seq<ScanReply>, more: seq<ScanReply>, maxCleanup: int, loss: Loss)
    requires Stops(replies, maxCleanup, loss)
    ensures Capped(Visited(replies + more), CountLimit(maxCleanup, loss))
            == Capped(Visited(replies), CountLimit(maxCleanup, loss))
    ensures Capped(Visited(replies + more), DeleteLimit(maxCleanup, loss))
            == Capped(Visited(replies), DeleteLimit(maxCleanup, loss))
  {
    VisitedOfMore(replies, more);
    if !Ends(replies) {
      CappedPrefix(Visited(replies), Visited(more), CountLimit(maxCleanup, loss));
      CappedPrefix(Visited(replies), Visited(more), DeleteLimit(maxCleanup, loss));
    }
  }

  /**
    Deletes exactly the first `maxCleanup` keys that SCAN comes up with (a key repeated by
    SCAN uses up its share again), or those up to a DEL that raises; returns how many of its
    DELs went well; and touches nothing else.
  */
  method CleanupStuckInProgress(cache: SharedCache, replies: seq<ScanReply>, maxCleanup: int, loss: Loss)
    returns (cleaned: nat)
    requires Stops(replies, maxCleanup, loss)
    modifies cache
    ensures cleaned == |Capped(Visited(replies), CountLimit(maxCleanup, loss))|
    ensures cache.data == Remove(old(cache.data), KeysOf(Capped(Visited(replies), DeleteLimit(maxCleanup, loss))))
  {
    cleaned := 0;
    var n := 0;
    var finished := false;
    assert replies[..0] == [];
    assert Remove(cache.data, KeysOf([])) == cache.data;
    while cleaned < maxCleanup && !finished
      invariant WorkedThrough(replies, n, finished, maxCleanup, loss, cleaned, old(cache.data), cache.data)
      decreases |replies| - n, !finished
    {
      RepliesRemain(replies, n, maxCleanup, loss, cleaned, old(cache.data), cache.data);
      if replies[n].ScanError? {
        ErrorEndsIt(replies, n);
        finished := true;
      } else {
        ghost var before := Visited(replies[..n]);
        var failed;
        cleaned, failed := DeleteKeys(cache, replies[n].keys, maxCleanup, loss, cleaned, old(cache.data), before);
        finished := failed || replies[n].cursor == 0;
        ReplyIsWorkedThrough(replies, n, failed, maxCleanup, loss, cleaned, old(cache.data), cache.data);
        n := n + 1;
      }
    }
    if !finished {
      LimitEndsIt(replies, n, maxCleanup, loss, cleaned, old(cache.data), cache.data);
    }
  }

  /** What the loop has worked through: the replies so far, and all of them once it is finished. */
  ghost function Done(replies: seq<ScanReply>, n: nat, finished: bool): seq<string>
    requires n <= |replies|
  {
    if finished then Visited(replies) else Visited(replies[..n])
  }

  ghost predicate WorkedThrough(replies: seq<ScanReply>, n: nat, finished: bool, maxCleanup: int, loss: Loss,
                                cleaned: nat, original: Store, data: Store) {
    && n <= |replies|
    && cleaned == |Capped(Done(replies, n, finished), CountLimit(maxCleanup, loss))|
    && data == Remove(original, KeysOf(Capped(Done(replies, n, finished), DeleteLimit(maxCleanup, loss))))
    && (!finished ==> Open(replies[..n]))
    && (!finished && loss.After? && loss.n < maxCleanup ==> |Visited(replies[..n])| <= loss.n)
  }

  /** The loop goes on only while there is a reply to come, and everything visited so far has been deleted. */
  lemma RepliesRemain(replies: seq<ScanReply>, n: nat, maxCleanup: int, loss: Loss,
                      cleaned: nat, original: Store, data: Store)
    requires Stops(replies, maxCleanup, loss) && cleaned < maxCleanup
    requires WorkedThrough(replies, n, false, maxCleanup, loss, cleaned, original, data)
    ensures n < |replies|
    ensures cleaned == |Visited(replies[..n])| && data == Remove(original, KeysOf(Visited(replies[..n])))
  {
    if n == |replies| {
      assert replies[..n] == replies;
      OpenRepliesDoNotEnd(replies);
    }
  }

  lemma ErrorEndsIt(replies: seq<ScanReply>, n: nat)
    requires n < |replies| && replies[n].ScanError?
    requires Open(replies[..n])
    ensures Visited(replies) == Visited(replies[..n])
  {
    VisitedSplit(replies, n);
    assert replies[n..][0] == replies[n];
  }

  lemma LimitEndsIt(replies: seq<ScanReply>, n: nat, maxCleanup: int, loss: Loss,
                    cleaned: nat, original: Store, data: Store)
    requires cleaned >= maxCleanup && WorkedThrough(replies, n, false, maxCleanup, loss, cleaned, original, data)
    ensures WorkedThrough(replies, n, true, maxCleanup, loss, cleaned, original, data)
  {
    assert replies == replies[..n] + replies[n..];
    assert |Visited(replies[..n])| >= maxCleanup;
    LaterRepliesDoNotMatter(replies[..n], replies[n..], maxCleanup, loss);
  }

  /** What the inner loop leaves is the next state of the outer one. */
  lemma ReplyIsWorkedThrough(replies: seq<ScanReply>, n: nat, failed: bool, maxCleanup: int, loss: Loss,
                             cleaned: nat, original: Store, data: Store)
    requires n < |replies| && replies[n].Keys?
    requires Open(replies[..n])
    requires
      var sofar := Visited(replies[..n]) + replies[n].keys;
      && cleaned == |Capped(sofar, CountLimit(maxCleanup, loss))|
      && data == Remove(original, KeysOf(Capped(sofar, DeleteLimit(maxCleanup, loss))))
      && (failed <==> loss.After? && loss.n < maxCleanup && |sofar| > loss.n)
    ensures WorkedThrough(replies, n + 1, failed || replies[n].cursor == 0, maxCleanup, loss, cleaned, original, data)
  {
    VisitedOneMore(replies[..n], replies[n]);
    assert replies[..n + 1] == replies[..n] + [replies[n]];
    AfterThisReply(replies, n, maxCleanup, loss);
  }

  /** Once a reply has the cursor 0, or the limits are passed, the rest of the replies adds nothing. */
  lemma AfterThisReply(replies: seq<ScanReply>, n: nat, maxCleanup: int, loss: Loss)
    requires n < |replies| && replies[n].Keys?
    requires Open(replies[..n])
    ensures
      var sofar := Visited(replies[..n + 1]);
      replies[n].cursor == 0 || (loss.After? && |sofar| > loss.n) ==>
        && Capped(Visited(replies), CountLimit(maxCleanup, loss)) == Capped(sofar, CountLimit(maxCleanup, loss))
        && Capped(Visited(replies), DeleteLimit(maxCleanup, loss)) == Capped(sofar, DeleteLimit(maxCleanup, loss))
  {
    assert replies == replies[..n + 1] + replies[n + 1..];
    if replies[n].cursor == 0 {
      LastReplyEnds(replies[..n + 1]);
    }
    if Stops(replies[..n + 1], maxCleanup, loss) {
      LaterRepliesDoNotMatter(replies[..n + 1], replies[n + 1..], maxCleanup, loss);
    }
  }

  lemma {:induction false} LastReplyEnds(replies: seq<ScanReply>)
    requires replies != [] && replies[|replies| - 1].Keys? && replies[|replies| - 1].cursor == 0
    ensures Ends(replies)
  {
    if |replies| > 1 { LastReplyEnds(replies[1..]); }
  }

  /** The inner loop: one reply's keys, stopping at the limit or at a DEL that raises. */
  method DeleteKeys(cache: SharedCache, keys: seq<string>, maxCleanup: int, loss: Loss, start: nat,
                    ghost original: Store, ghost before: seq<string>)
    returns (cleaned: nat, failed: bool)
    requires start == |before| && start < maxCleanup && (loss.After? && loss.n < maxCleanup ==> start <= loss.n)
    requires cache.data == Remove(original, KeysOf(before))
    modifies cache
    ensures cleaned == |Capped(before + keys, CountLimit(maxCleanup, loss))|
    ensures cache.data == Remove(original, KeysOf(Capped(before + keys, DeleteLimit(maxCleanup, loss))))
    ensures failed <==> loss.After? && loss.n < maxCleanup && |before + keys| > loss.n
  {
    cleaned, failed := start, false;
    var i := 0;
    assert before + keys[..0] == before;
    while i < |keys| && cleaned < maxCleanup && !failed
      invariant 0 <= i <= |keys| && cleaned == start + i <= maxCleanup
      invariant cleaned <= CountLimit(maxCleanup, loss)
      invariant failed ==> loss.After? && loss.n == cleaned < maxCleanup && i < |keys|
      invariant cache.data
                == Remove(original, KeysOf(before + if failed && loss.executed then keys[..i + 1] else keys[..i]))
      decreases |keys| - i, !failed
    {
      RemoveOneMore(original, before + keys[..i], keys[i]);
      assert before + keys[..i + 1] == before + keys[..i] + [keys[i]];
      if loss.After? && loss.n == cleaned {
        if loss.executed {
          var _ := cache.Delete(keys[i], Unheard);
        }
        failed := true;
      } else {
        var _ := cache.Delete(keys[i], Answered);
        cleaned := cleaned + 1;
        i := i + 1;
      }
    }
    assert (before + keys)[..cleaned] == before + keys[..i];
    if failed {
      assert (before + keys)[..cleaned + 1] == before + keys[..i + 1];
    }
    assert keys[..|keys|] == keys;
  }

  /**
    What SCAN promises of its replies: MATCH filters them, and a full pass returns every key
    that is there throughout.
  */
  ghost predicate Honest(replies: seq<ScanReply>, ns: Option<string>, stable: Store) {
    && (forall k :: k in Visited(replies) ==> Glob(MarkerPattern(ns), k))
    && (Completes(replies) ==> forall k :: k in stable && Glob(MarkerPattern(ns), k) ==> k in Visited(replies))
  }

  /**
    Whatever SCAN repeats, wherever it stops and whatever wildcards the namespace holds, no
    completed result is deleted.
  */
  lemma CleanupSparesResults(s: Store, replies: seq<ScanReply>, ns: Option<string>, limit: int, key: BaseKey)
    requires Honest(replies, ns, s)
    ensures
      var left := Remove(s, KeysOf(Capped(Visited(replies), limit)));
      (key in left <==> key in s) && (key in s ==> left[key] == s[key])
  {
    PatternSparesCompleted(ns, key);
  }

  /** Nor is any marker of a namespace that is neither `ns` nor below it. */
  lemma CleanupSparesOtherNamespaces(s: Store, replies: seq<ScanReply>, ns: Option<string>, limit: int,
                                     hash: Hash, other: Option<string>)
    requires Honest(replies, ns, s) && Literal(Lead(ns)) && Namespace(ns).Some?
    requires Namespace(other).None? || !Nested(Namespace(ns).value, Namespace(other).value)
    ensures
      var left := Remove(s, KeysOf(Capped(Visited(replies), limit)));
      var marker := MarkerOf(BuildKey(hash, other));
      (marker in left <==> marker in s) && (marker in s ==> left[marker] == s[marker])
  {
    PatternSelects(ns, hash, other);
  }

  /** A pass that completes under the limit leaves no marker of the namespace, nor of any namespace below it. */
  lemma CleanupIsThorough(s: Store, replies: seq<ScanReply>, ns: Option<string>, limit: int, hash: Hash,
                          other: Option<string>)
    requires Honest(replies, ns, s) && Literal(Lead(ns)) && Completes(replies)
    requires limit >= |Visited(replies)|
    requires Namespace(ns).None? || (Namespace(other).Some? && Nested(Namespace(ns).value, Namespace(other).value))
    ensures MarkerOf(BuildKey(hash, other)) !in Remove(s, KeysOf(Capped(Visited(replies), limit)))
  {
    PatternSelects(ns, hash, other);
  }
}
