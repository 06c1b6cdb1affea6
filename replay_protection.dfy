/**
 * The relay's replay guard: for each sender, a window of the most recent
 * nonces it uploaded, held in a deque of bounded length.
 */
module ReplayProtection {
  import opened Json

  /** Capacity of each sender's deque. */
  const MaxNoncesPerSender: nat := 100

  type Windows = map<Value, seq<Value>>

  /** The deque of `sender`; a sender never seen has an empty one. */
  function WindowOf(windows: Windows, sender: Value): (w: seq<Value>)
    ensures sender !in windows ==> w == []
  {
    if sender in windows then windows[sender] else []
  }

  predicate NoDuplicates(s: seq<Value>)
  {
    forall i, j :: 0 <= i < j < |s| ==> s[i] != s[j]
  }

  /** The invariant every window keeps: bounded and free of duplicates. */
  ghost predicate ValidWindows(windows: Windows)
  {
    forall s :: s in windows ==> |windows[s]| <= MaxNoncesPerSender && NoDuplicates(windows[s])
  }

  /** Reference definition: the last `MaxNoncesPerSender` elements of `s`. */
  function Retain(s: seq<Value>): (r: seq<Value>)
    ensures |r| == if |s| <= MaxNoncesPerSender then |s| else MaxNoncesPerSender
    ensures r == s[|s| - |r|..]
  {
    if |s| <= MaxNoncesPerSender then s else s[|s| - MaxNoncesPerSender..]
  }

  /** `deque.append` on a deque whose maxlen is `MaxNoncesPerSender`. */
  function BoundedAppend(w: seq<Value>, n: Value): (r: seq<Value>)
    ensures r == Retain(w + [n])
    ensures |w| == MaxNoncesPerSender ==> r == w[1..] + [n]
  {
    if |w| < MaxNoncesPerSender then w + [n]
    else w[|w| - MaxNoncesPerSender + 1..] + [n]
  }

  /** What `store_nonce` does to one sender's window. */
  function Record(w: seq<Value>, n: Value): (r: seq<Value>)
    ensures n in r
    ensures n in w ==> r == w
    ensures n !in w ==> r == BoundedAppend(w, n)
    ensures |w| <= MaxNoncesPerSender ==> |r| <= MaxNoncesPerSender
  {
    if n in w then w else BoundedAppend(w, n)
  }

  lemma SliceMembers(w: seq<Value>, k: nat)
    requires k <= |w|
    ensures forall x :: x in w[k..] ==> x in w
  {
    forall x | x in w[k..]
      ensures x in w
    {
      var i :| 0 <= i < |w[k..]| && w[k..][i] == x;
      assert w[k + i] == x;
    }
  }

  lemma SliceNoDuplicates(w: seq<Value>, k: nat)
    requires k <= |w| && NoDuplicates(w)
    ensures NoDuplicates(w[k..])
  {
    var t := w[k..];
    forall i, j | 0 <= i < j < |t|
      ensures t[i] != t[j]
    {
      assert t[i] == w[k + i] && t[j] == w[k + j];
    }
  }

  lemma AppendNoDuplicates(t: seq<Value>, n: Value)
    requires NoDuplicates(t) && n !in t
    ensures NoDuplicates(t + [n])
  {
    var r := t + [n];
    forall i, j | 0 <= i < j < |r|
      ensures r[i] != r[j]
    {
      assert r[i] == t[i];
      if j < |t| {
        assert r[j] == t[j];
      }
    }
  }

  /** Recording adds nothing but `n`, and never a duplicate. */
  lemma RecordContents(w: seq<Value>, n: Value)
    ensures forall x :: x in Record(w, n) ==> x in w || x == n
    ensures NoDuplicates(w) ==> NoDuplicates(Record(w, n))
  {
    if n !in w {
      var k := if |w| < MaxNoncesPerSender then 0 else |w| - MaxNoncesPerSender + 1;
      var tail := w[k..];
      assert Record(w, n) == tail + [n];
      SliceMembers(w, k);
      if NoDuplicates(w) {
        SliceNoDuplicates(w, k);
        AppendNoDuplicates(tail, n);
      }
    }
  }

  /** Recording a nonce keeps the window invariant of every sender. */
  lemma RecordKeepsValid(windows: Windows, sender: Value, n: Value)
    requires ValidWindows(windows)
    ensures ValidWindows(windows[sender := Record(WindowOf(windows, sender), n)])
  {
    RecordContents(WindowOf(windows, sender), n);
  }

  /** The windows after recording the nonces `ns` one after another. */
  function RecordAll(w: seq<Value>, ns: seq<Value>): seq<Value>
    decreases |ns|
  {
    if ns == [] then w else RecordAll(Record(w, ns[0]), ns[1..])
  }

  lemma {:induction false} RetainTwice(a: seq<Value>, b: seq<Value>)
    ensures Retain(Retain(a) + b) == Retain(a + b)
  {
    var ra := Retain(a);
    var k := |a| - |ra|;
    assert a == a[..k] + ra;
    assert a + b == a[..k] + (ra + b);
    var s, t := ra + b, a + b;
    assert t[|t| - |Retain(t)|..] == s[|s| - |Retain(t)|..];
  }

  lemma SplitFirst(w: seq<Value>, ns: seq<Value>)
    requires ns != []
    ensures w + [ns[0]] + ns[1..] == w + ns
  {
    assert ns == [ns[0]] + ns[1..];
  }

  /**
   * Recording nonces that are distinct and new to the window appends each in
   * turn, and the window ends as the last hundred of them all.
   */
  lemma {:induction false} RecordAllFresh(w: seq<Value>, ns: seq<Value>)
    requires |w| <= MaxNoncesPerSender && NoDuplicates(w) && NoDuplicates(ns)
    requires forall i :: 0 <= i < |ns| ==> ns[i] !in w
    ensures RecordAll(w, ns) == Retain(w + ns)
    decreases |ns|
  {
    if ns == [] {
      assert w + ns == w;
    } else {
      var n, rest := ns[0], ns[1..];
      var w' := Record(w, n);
      assert n !in w;
      RecordContents(w, n);
      assert NoDuplicates(rest) by {
        forall i, j | 0 <= i < j < |rest| ensures rest[i] != rest[j] {
          assert rest[i] == ns[i + 1] && rest[j] == ns[j + 1];
        }
      }
      forall i | 0 <= i < |rest|
        ensures rest[i] !in w'
      {
        assert rest[i] == ns[i + 1];
        assert rest[i] != n;
      }
      RecordAllFresh(w', rest);
      RetainTwice(w + [n], rest);
      SplitFirst(w, ns);
    }
  }

  /** With at least a hundred elements appended, what is retained comes from those alone. */
  lemma RetainKeepsOnlySuffix(w: seq<Value>, ns: seq<Value>, x: Value)
    requires |ns| >= MaxNoncesPerSender && x !in ns
    ensures x !in Retain(w + ns)
  {
    var k := |ns| - MaxNoncesPerSender;
    assert (w + ns)[|w| + k..] == ns[k..];
    assert Retain(w + ns) == ns[k..];
    SliceMembers(ns, k);
  }

  /**
   * Once a hundred newer distinct nonces have been recorded for a sender, an
   * older nonce has been evicted and no longer counts as a replay.
   */
  lemma OldNonceForgotten(w: seq<Value>, ns: seq<Value>, old_nonce: Value)
    requires |w| <= MaxNoncesPerSender && NoDuplicates(w) && NoDuplicates(ns)
    requires forall i :: 0 <= i < |ns| ==> ns[i] !in w
    requires |ns| >= MaxNoncesPerSender && old_nonce !in ns
    ensures old_nonce !in RecordAll(w, ns)
  {
    RecordAllFresh(w, ns);
    RetainKeepsOnlySuffix(w, ns, old_nonce);
  }

  /** Creating an empty default window and then overwriting it leaves no trace of the default. */
  lemma SetOverDefault(m: Windows, k: Value, x: seq<Value>)
    ensures (if k in m then m else m[k := []])[k := x] == m[k := x]
  {
  }

  /**
   * The module-level `defaultdict` of deques, one per sender.
   */
  class ReplayGuard {
    var windows: Windows

    ghost predicate Valid()
      reads this
    {
      ValidWindows(windows)
    }

    constructor ()
      ensures Valid() && windows == map[]
    {
      windows := map[];
    }

    /**
     * `is_replay`: whether `nonce` is in the sender's window.  Indexing the
     * defaultdict creates an empty window for a sender never seen before.
     */
    method IsReplay(sender: Value, nonce: Value) returns (seen: bool)
      requires Valid()
      modifies this
      ensures Valid()
      ensures seen <==> nonce in WindowOf(old(windows), sender)
      ensures windows == if sender in old(windows) then old(windows) else old(windows)[sender := []]
      ensures forall s :: WindowOf(windows, s) == WindowOf(old(windows), s)
    {
      if sender !in windows {
        windows := windows[sender := []];
      }
      seen := nonce in windows[sender];
    }

    /** `store_nonce`: appends `nonce` to the sender's deque unless already there. */
    method StoreNonce(sender: Value, nonce: Value)
      requires Valid()
      modifies this
      ensures Valid()
      ensures windows == old(windows)[sender := Record(WindowOf(old(windows), sender), nonce)]
    {
      ghost var w0 := windows;
      ghost var entry := Record(WindowOf(w0, sender), nonce);
      RecordKeepsValid(w0, sender, nonce);
      if sender !in windows {
        windows := windows[sender := []];
      }
      var dq := windows[sender];
      assert dq == WindowOf(w0, sender);
      if nonce !in dq {
        if |dq| == MaxNoncesPerSender {
          dq := dq[1..];
        }
        dq := dq + [nonce];
        assert dq == entry;
        SetOverDefault(w0, sender, dq);
        windows := windows[sender := dq];
      } else {
        assert sender in w0 && w0[sender] == entry;
        assert windows == w0[sender := entry];
      }
    }
  }
}
