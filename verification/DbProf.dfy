/** db_prof.c: counting calls in hash chains threaded through one array, with move to front. */
module DbProf {
  import opened Arith
  import opened WordOps

  /** struct tostruct */
  datatype Arc = Arc(selfpc: nat, count: nat, link: nat)

  // ---------- chains ----------

  /** The k-th entry of a chain; 0 ends it. */
  function At(c: seq<nat>, k: nat): nat { if k < |c| then c[k] else 0 }

  /** Each entry of the chain is allocated to bucket b and linked to the next. */
  ghost predicate Links(b: nat, tos: seq<Arc>, c: seq<nat>, home: seq<nat>) {
    && 0 < |home| <= |tos|
    && forall k :: 0 <= k < |c| ==>
        0 < c[k] < |home| && home[c[k]] == b
        && tos[c[k]].count > 0 && tos[c[k]].link == At(c, k + 1)
  }

  /** No entry occurs twice, so there is no cycle, and no selfpc. */
  ghost predicate Different(tos: seq<Arc>, c: seq<nat>) {
    && (forall k :: 0 <= k < |c| ==> c[k] < |tos|)
    && forall k, l :: 0 <= k < l < |c| ==> c[k] != c[l] && tos[c[k]].selfpc != tos[c[l]].selfpc
  }

  /** The chain of bucket b. */
  ghost predicate Bucket(b: nat, head: nat, tos: seq<Arc>, c: seq<nat>, home: seq<nat>) {
    head == At(c, 0) && Links(b, tos, c, home) && Different(tos, c)
  }

  /** Every bucket has its chain; `home` gives the bucket of each allocated entry, whose chain holds the entry. */
  ghost predicate Shape(froms: seq<nat>, tos: seq<Arc>, chains: seq<seq<nat>>, home: seq<nat>) {
    && |chains| == |froms| && 0 < |home| <= |tos|
    && (forall b :: 0 <= b < |froms| ==> Bucket(b, froms[b], tos, chains[b], home))
    && (forall i :: 0 < i < |home| ==> home[i] < |chains| && i in chains[home[i]])
  }

  /** What the chain says of a selfpc. */
  ghost function Lookup(tos: seq<Arc>, c: seq<nat>, pc: nat): nat
    requires forall k :: 0 <= k < |c| ==> c[k] < |tos|
  {
    if c == [] then 0 else if tos[c[0]].selfpc == pc then tos[c[0]].count else Lookup(tos, c[1..], pc)
  }

  lemma {:induction false} LookupAt(tos: seq<Arc>, c: seq<nat>, k: nat)
    requires k < |c| && forall j :: 0 <= j < |c| ==> c[j] < |tos|
    requires forall j :: 0 <= j < k ==> tos[c[j]].selfpc != tos[c[k]].selfpc
    ensures Lookup(tos, c, tos[c[k]].selfpc) == tos[c[k]].count
  {
    if k > 0 {
      assert c[1..][k - 1] == c[k];
      LookupAt(tos, c[1..], k - 1);
    }
  }

  lemma {:induction false} LookupAbsent(tos: seq<Arc>, c: seq<nat>, pc: nat)
    requires forall j :: 0 <= j < |c| ==> c[j] < |tos| && tos[c[j]].selfpc != pc
    ensures Lookup(tos, c, pc) == 0
  {
    if c != [] {
      LookupAbsent(tos, c[1..], pc);
    }
  }

  lemma {:induction false} LookupFrame(tos: seq<Arc>, tos': seq<Arc>, c: seq<nat>, pc: nat)
    requires forall j :: 0 <= j < |c| ==> c[j] < |tos| && c[j] < |tos'|
    requires forall j :: 0 <= j < |c| ==> tos'[c[j]].selfpc == tos[c[j]].selfpc && tos'[c[j]].count == tos[c[j]].count
    ensures Lookup(tos', c, pc) == Lookup(tos, c, pc)
  {
    if c != [] {
      LookupFrame(tos, tos', c[1..], pc);
    }
  }

  /** Where a selfpc is in a chain, if anywhere. */
  ghost function Find(tos: seq<Arc>, c: seq<nat>, pc: nat): (k: nat)
    requires forall k :: 0 <= k < |c| ==> c[k] < |tos|
    ensures k <= |c| && (k < |c| ==> tos[c[k]].selfpc == pc)
    ensures forall j :: 0 <= j < k ==> tos[c[j]].selfpc != pc
  {
    if c == [] then 0 else if tos[c[0]].selfpc == pc then 0 else 1 + Find(tos, c[1..], pc)
  }

  // ---------- counting ----------

  /** A call counted: its bucket and its selfpc. */
  datatype Hit = Hit(bucket: nat, selfpc: nat)

  ghost function Tally(calls: seq<Hit>, h: Hit): nat {
    if calls == [] then 0 else Tally(calls[..|calls| - 1], h) + if calls[|calls| - 1] == h then 1 else 0
  }

  ghost predicate Counted(tos: seq<Arc>, chains: seq<seq<nat>>, calls: seq<Hit>)
    requires InRange(chains, |tos|)
  {
    forall b, pc :: 0 <= b < |chains| ==> Lookup(tos, chains[b], pc) == Tally(calls, Hit(b, pc))
  }

  ghost predicate InRange(chains: seq<seq<nat>>, n: nat) {
    forall b, k :: 0 <= b < |chains| && 0 <= k < |chains[b]| ==> chains[b][k] < n
  }

  lemma ShapeInRange(froms: seq<nat>, tos: seq<Arc>, chains: seq<seq<nat>>, home: seq<nat>)
    requires Shape(froms, tos, chains, home)
    ensures InRange(chains, |tos|)
  {
    forall b, k | 0 <= b < |chains| && 0 <= k < |chains[b]|
      ensures chains[b][k] < |tos|
    {
      assert Bucket(b, froms[b], tos, chains[b], home);
    }
  }

  // ---------- the three changes to a chain ----------

  /** Entries outside a chain may change, and more may be allocated. */
  lemma BucketFrame(b: nat, head: nat, tos: seq<Arc>, tos': seq<Arc>, c: seq<nat>, home: seq<nat>, home': seq<nat>)
    requires Bucket(b, head, tos, c, home) && home <= home' && |home'| <= |tos'|
    requires forall k :: 0 <= k < |c| ==> c[k] < |tos'| && tos'[c[k]] == tos[c[k]]
    ensures Bucket(b, head, tos', c, home')
  {
  }

  /** A new entry at the head. */
  lemma Pushed(b: nat, head: nat, tos: seq<Arc>, c: seq<nat>, home: seq<nat>, tos': seq<Arc>, pc: nat)
    requires Bucket(b, head, tos, c, home) && |tos'| == |tos| && |home| < |tos|
    requires tos'[|home|] == Arc(pc, 1, head)
    requires forall i :: 0 < i < |home| ==> tos'[i] == tos[i]
    requires forall k :: 0 <= k < |c| ==> tos[c[k]].selfpc != pc
    ensures Bucket(b, |home|, tos', [|home|] + c, home + [b])
  {
    var c', home' := [|home|] + c, home + [b];
    BucketFrame(b, head, tos, tos', c, home, home');
    forall k | 0 <= k < |c'|
      ensures 0 < c'[k] < |home'| && home'[c'[k]] == b && tos'[c'[k]].count > 0 && tos'[c'[k]].link == At(c', k + 1)
    {
      PushedAt(c, |home|, k);
    }
    forall k, l | 0 <= k < l < |c'|
      ensures c'[k] != c'[l] && tos'[c'[k]].selfpc != tos'[c'[l]].selfpc
    {
      PushedAt(c, |home|, k);
      PushedAt(c, |home|, l);
    }
  }

  lemma PushedAt(c: seq<nat>, n: nat, k: nat)
    requires k <= |c|
    ensures ([n] + c)[k] == (if k == 0 then n else c[k - 1]) && At([n] + c, k + 1) == At(c, k)
  {
  }

  /** The count of an entry goes up by one. */
  lemma Bumped(b: nat, head: nat, tos: seq<Arc>, c: seq<nat>, home: seq<nat>, k: nat)
    requires Bucket(b, head, tos, c, home) && k < |c|
    ensures Bucket(b, head, tos[c[k] := tos[c[k]].(count := tos[c[k]].count + 1)], c, home)
  {
  }

  function MovedUp(c: seq<nat>, k: nat): seq<nat>
    requires k < |c|
  {
    [c[k]] + c[..k] + c[k + 1..]
  }

  lemma MovedUpAt(c: seq<nat>, k: nat, j: nat)
    requires k < |c|
    ensures |MovedUp(c, k)| == |c|
    ensures At(MovedUp(c, k), j) == if j == 0 then c[k] else if j <= k then c[j - 1] else At(c, j)
  {
  }

  ghost predicate Relink(tos: seq<Arc>, c: seq<nat>, k: nat, head: nat, tos': seq<Arc>) {
    && 0 < k < |c| && c[k - 1] < |tos| && c[k] < |tos|
    && tos' == tos[c[k - 1] := tos[c[k - 1]].(link := tos[c[k]].link)][c[k] := tos[c[k]].(link := head)]
  }

  lemma RelinkedAt(b: nat, tos: seq<Arc>, c: seq<nat>, home: seq<nat>, k: nat, tos': seq<Arc>, j: nat)
    requires j < |c| && Links(b, tos, c, home) && Different(tos, c) && Relink(tos, c, k, c[0], tos')
    ensures |MovedUp(c, k)| == |c|
    ensures var i := MovedUp(c, k)[j];
            0 < i < |home| && home[i] == b && tos'[i].count > 0 && tos'[i].link == At(MovedUp(c, k), j + 1)
  {
    RelinkSize(tos, c, k, c[0], tos');
    hide MovedUp, Different, Relink;
    MovedUpAt(c, k, j);
    MovedUpAt(c, k, j + 1);
    var n := if j == 0 then k else if j <= k then j - 1 else j;
    assert MovedUp(c, k)[j] == c[n];
    RelinkEntry(tos, c, k, tos', n);
  }

  lemma RelinkEntry(tos: seq<Arc>, c: seq<nat>, k: nat, tos': seq<Arc>, n: nat)
    requires n < |c| && Different(tos, c) && Relink(tos, c, k, c[0], tos')
    ensures c[n] < |tos| == |tos'| && tos'[c[n]].count == tos[c[n]].count
    ensures tos'[c[n]].link == if n == k then c[0] else if n == k - 1 then tos[c[k]].link else tos[c[n]].link
  {
    hide Different;
    EntriesDiffer(tos, c, n, k - 1);
    EntriesDiffer(tos, c, n, k);
    EntriesDiffer(tos, c, k - 1, k);
  }

  lemma EntriesDiffer(tos: seq<Arc>, c: seq<nat>, k: nat, l: nat)
    requires Different(tos, c) && k < |c| && l < |c|
    ensures c[k] < |tos| && c[l] < |tos|
    ensures k != l ==> c[k] != c[l] && tos[c[k]].selfpc != tos[c[l]].selfpc
  {
  }

  lemma RelinkedDifferent(tos: seq<Arc>, c: seq<nat>, k: nat, tos': seq<Arc>)
    requires Different(tos, c) && k < |c| && |tos'| == |tos|
    requires forall i :: 0 <= i < |tos| ==> tos'[i].selfpc == tos[i].selfpc
    ensures Different(tos', MovedUp(c, k))
  {
    hide MovedUp;
    var d := MovedUp(c, k);
    MovedUpAt(c, k, 0);
    forall i | 0 <= i < |d|
      ensures d[i] < |tos'|
    {
      MovedUpAt(c, k, i);
    }
    forall i, j | 0 <= i < j < |d|
      ensures d[i] != d[j] && tos'[d[i]].selfpc != tos'[d[j]].selfpc
    {
      MovedUpAt(c, k, i);
      MovedUpAt(c, k, j);
    }
  }

  /** Three links are changed to bring entry k to the head. */
  lemma Relinked(b: nat, tos: seq<Arc>, c: seq<nat>, home: seq<nat>, k: nat, tos': seq<Arc>)
    requires c != [] && Bucket(b, c[0], tos, c, home) && Relink(tos, c, k, c[0], tos')
    ensures Bucket(b, c[k], tos', MovedUp(c, k), home)
  {
    RelinkSize(tos, c, k, c[0], tos');
    hide MovedUp, Relink, Different;
    var d := MovedUp(c, k);
    MovedUpAt(c, k, 0);
    RelinkedDifferent(tos, c, k, tos');
    forall j | 0 <= j < |d|
      ensures 0 < d[j] < |home| && home[d[j]] == b && tos'[d[j]].count > 0 && tos'[d[j]].link == At(d, j + 1)
    {
      RelinkedAt(b, tos, c, home, k, tos', j);
    }
  }

  lemma RelinkSize(tos: seq<Arc>, c: seq<nat>, k: nat, head: nat, tos': seq<Arc>)
    requires Relink(tos, c, k, head, tos')
    ensures 0 < k < |c| && |tos'| == |tos|
    ensures forall i :: 0 <= i < |tos| ==> tos'[i].selfpc == tos[i].selfpc && tos'[i].count == tos[i].count
  {
  }

  // ---------- what a change to one chain does to the table ----------

  ghost predicate Elsewhere(b: nat, tos: seq<Arc>, tos': seq<Arc>, home: seq<nat>)
    requires |home| <= |tos| == |tos'|
  {
    forall i :: 0 < i < |home| && home[i] != b ==> tos'[i] == tos[i]
  }

  /** The chain holds the entries that bucket b had and those that are new. */
  ghost predicate Gathers(b: nat, home: seq<nat>, home': seq<nat>, c: seq<nat>) {
    forall i :: 0 < i < |home'| && (i < |home| ==> home[i] == b) ==> home'[i] == b && i in c
  }

  lemma ShapeAfter(froms: seq<nat>, tos: seq<Arc>, chains: seq<seq<nat>>, home: seq<nat>,
                   b: nat, head: nat, tos': seq<Arc>, c: seq<nat>, home': seq<nat>)
    requires Shape(froms, tos, chains, home) && b < |froms| && |tos'| == |tos|
    requires Bucket(b, head, tos', c, home') && home <= home' && Elsewhere(b, tos, tos', home)
    requires Gathers(b, home, home', c)
    ensures Shape(froms[b := head], tos', chains[b := c], home')
  {
    var froms', chains' := froms[b := head], chains[b := c];
    forall d | 0 <= d < |froms|
      ensures Bucket(d, froms'[d], tos', chains'[d], home')
    {
      if d != b {
        assert Bucket(d, froms[d], tos, chains[d], home);
        BucketFrame(d, froms[d], tos, tos', chains[d], home, home');
      }
    }
  }

  lemma {:induction false} TallyIn(calls: seq<Hit>, h: Hit)
    ensures Tally(calls, h) > 0 <==> h in calls
  {
    if calls != [] {
      TallyIn(calls[..|calls| - 1], h);
      assert calls == calls[..|calls| - 1] + [calls[|calls| - 1]];
    }
  }

  lemma TallySnoc(calls: seq<Hit>, n: Hit, h: Hit)
    ensures Tally(calls + [n], h) == Tally(calls, h) + if n == h then 1 else 0
  {
    assert (calls + [n])[..|calls|] == calls;
  }

  lemma ElsewhereSame(b: nat, d: nat, head: nat, tos: seq<Arc>, tos': seq<Arc>, c: seq<nat>, home: seq<nat>, x: nat)
    requires Bucket(d, head, tos, c, home) && d != b && |tos'| == |tos| && Elsewhere(b, tos, tos', home)
    ensures (forall k :: 0 <= k < |c| ==> c[k] < |tos|) && Lookup(tos', c, x) == Lookup(tos, c, x)
  {
    LookupFrame(tos, tos', c, x);
  }

  lemma CountedAfter(froms: seq<nat>, tos: seq<Arc>, chains: seq<seq<nat>>, home: seq<nat>, calls: seq<Hit>,
                     b: nat, tos': seq<Arc>, c: seq<nat>, pc: nat)
    requires Shape(froms, tos, chains, home) && b < |froms| && |tos'| == |tos| && Elsewhere(b, tos, tos', home)
    requires InRange(chains, |tos|) && InRange(chains[b := c], |tos|) && Counted(tos, chains, calls)
    requires forall k :: 0 <= k < |c| ==> c[k] < |tos|
    requires forall x :: Lookup(tos', c, x) == Lookup(tos, chains[b], x) + if x == pc then 1 else 0
    ensures Counted(tos', chains[b := c], calls + [Hit(b, pc)])
  {
    hide Bucket, Lookup, Tally, Elsewhere;
    var chains' := chains[b := c];
    forall d, x | 0 <= d < |chains|
      ensures Lookup(tos', chains'[d], x) == Tally(calls + [Hit(b, pc)], Hit(d, x))
    {
      TallySnoc(calls, Hit(b, pc), Hit(d, x));
      if d != b {
        ElsewhereSame(b, d, froms[d], tos, tos', chains[d], home, x);
      }
    }
  }

  /** A new entry counts one call. */
  lemma LookupPushed(tos: seq<Arc>, tos': seq<Arc>, c: seq<nat>, n: nat, pc: nat, head: nat, x: nat)
    requires n < |tos'| && tos'[n] == Arc(pc, 1, head) && forall j :: 0 <= j < |[n] + c| ==> ([n] + c)[j] < |tos'|
    requires forall j :: 0 <= j < |c| ==>
               c[j] < |tos| && c[j] < |tos'| && tos'[c[j]] == tos[c[j]] && tos[c[j]].selfpc != pc
    ensures Lookup(tos', [n] + c, x) == Lookup(tos, c, x) + if x == pc then 1 else 0
  {
    LookupFrame(tos, tos', c, x);
    LookupAbsent(tos, c, pc);
    assert ([n] + c)[1..] == c;
  }

  /** One more call for the entry of `pc`, wherever it is moved. */
  lemma LookupMoved(tos: seq<Arc>, c: seq<nat>, tos': seq<Arc>, d: seq<nat>, pc: nat, x: nat)
    requires Different(tos, c) && Different(tos', d) && forall i :: i in c <==> i in d
    requires forall i :: i in c ==> tos'[i].selfpc == tos[i].selfpc
    requires forall i :: i in c ==> tos'[i].count == tos[i].count + if tos[i].selfpc == pc then 1 else 0
    requires Find(tos, c, pc) < |c|
    ensures Lookup(tos', d, x) == Lookup(tos, c, x) + if x == pc then 1 else 0
  {
    var k := Find(tos, c, x);
    if k < |c| {
      assert c[k] in d;
      var l :| 0 <= l < |d| && d[l] == c[k];
      LookupAt(tos, c, k);
      LookupAt(tos', d, l);
    } else {
      LookupAbsent(tos, c, x);
      assert forall j :: 0 <= j < |d| ==> d[j] in c;
      LookupAbsent(tos', d, x);
    }
  }

  lemma MovedUpSame(c: seq<nat>, k: nat)
    requires k < |c|
    ensures forall i :: i in c <==> i in MovedUp(c, k)
  {
    assert c == c[..k] + [c[k]] + c[k + 1..];
  }

  lemma BucketOf(froms: seq<nat>, tos: seq<Arc>, chains: seq<seq<nat>>, home: seq<nat>, b: nat)
    requires Shape(froms, tos, chains, home) && b < |froms|
    ensures b < |chains| && Bucket(b, froms[b], tos, chains[b], home)
    ensures Gathers(b, home, home, chains[b])
    ensures forall k :: 0 <= k < |chains[b]| ==> 0 < chains[b][k] < |home| <= |tos|
  {
    assert Bucket(b, froms[b], tos, chains[b], home);
  }

  lemma GathersPushed(b: nat, home: seq<nat>, c: seq<nat>)
    requires Gathers(b, home, home, c)
    ensures Gathers(b, home, home + [b], [|home|] + c)
  {
    var c', home' := [|home|] + c, home + [b];
    forall i | 0 < i < |home'| && (i < |home| ==> home[i] == b)
      ensures home'[i] == b && i in c'
    {
      if i == |home| {
        assert c'[0] == i;
      } else {
        assert home[i] == b && i in c;
      }
    }
  }

  /** Allocating an entry for an arc that is not in its chain. */
  lemma PushKeepsShape(froms: seq<nat>, tos: seq<Arc>, chains: seq<seq<nat>>, home: seq<nat>, b: nat, tos': seq<Arc>,
        pc: nat)
    requires Shape(froms, tos, chains, home) && b < |froms|
    requires |tos'| == |tos| && |home| < |tos| && tos'[|home|] == Arc(pc, 1, froms[b])
    requires forall i :: 0 < i < |home| ==> tos'[i] == tos[i]
    requires InRange(chains, |tos|) && Find(tos, chains[b], pc) == |chains[b]|
    ensures var chains' := chains[b := [|home|] + chains[b]];
            Shape(froms[b := |home|], tos', chains', home + [b]) && InRange(chains', |tos|)
  {
    BucketOf(froms, tos, chains, home, b);
    hide Shape, Bucket, Gathers, Find;
    var c, n := chains[b], |home|;
    Pushed(b, froms[b], tos, c, home, tos', pc);
    GathersPushed(b, home, c);
    ShapeAfter(froms, tos, chains, home, b, n, tos', [n] + c, home + [b]);
    ShapeInRange(froms[b := n], tos', chains[b := [n] + c], home + [b]);
  }

  lemma PushKeepsCounts(froms: seq<nat>, tos: seq<Arc>, chains: seq<seq<nat>>, home: seq<nat>, calls: seq<Hit>,
                        b: nat, tos': seq<Arc>, pc: nat)
    requires Shape(froms, tos, chains, home) && b < |froms| && InRange(chains, |tos|) && Counted(tos, chains, calls)
    requires |tos'| == |tos| && |home| < |tos| && tos'[|home|] == Arc(pc, 1, froms[b])
    requires forall i :: 0 < i < |home| ==> tos'[i] == tos[i]
    requires Find(tos, chains[b], pc) == |chains[b]|
    requires InRange(chains[b := [|home|] + chains[b]], |tos|)
    ensures Counted(tos', chains[b := [|home|] + chains[b]], calls + [Hit(b, pc)])
  {
    BucketOf(froms, tos, chains, home, b);
    hide Shape, Bucket, Gathers, Find, Lookup, InRange;
    var c, n := chains[b], |home|;
    var c' := [n] + c;
    assert forall k :: 0 <= k < |c'| ==> c'[k] < |tos|;
    forall x
      ensures Lookup(tos', c', x) == Lookup(tos, c, x) + if x == pc then 1 else 0
    {
      LookupPushed(tos, tos', c, n, pc, froms[b], x);
    }
    CountedAfter(froms, tos, chains, home, calls, b, tos', c', pc);
  }

  /** The count of entry k of the chain goes up by one, and the entry goes to the head. */
  ghost predicate Move(tos: seq<Arc>, c: seq<nat>, k: nat, tos': seq<Arc>) {
    && k < |c| && c[0] < |tos| && c[k] < |tos|
    && var t := tos[c[k] := tos[c[k]].(count := tos[c[k]].count + 1)];
       if k == 0 then tos' == t else Relink(t, c, k, c[0], tos')
  }

  lemma MoveBucket(b: nat, tos: seq<Arc>, c: seq<nat>, home: seq<nat>, k: nat, tos': seq<Arc>)
    requires c != [] && Bucket(b, c[0], tos, c, home) && Move(tos, c, k, tos')
    ensures Bucket(b, c[k], tos', MovedUp(c, k), home)
  {
    Bumped(b, c[0], tos, c, home, k);
    hide Bucket;
    var t := tos[c[k] := tos[c[k]].(count := tos[c[k]].count + 1)];
    if k == 0 {
      assert MovedUp(c, 0) == c;
    } else {
      Relinked(b, t, c, home, k, tos');
    }
  }

  lemma MoveEntries(tos: seq<Arc>, c: seq<nat>, k: nat, tos': seq<Arc>)
    requires Different(tos, c) && Move(tos, c, k, tos')
    ensures |tos'| == |tos| && forall i :: 0 <= i < |tos| && i !in c ==> tos'[i] == tos[i]
    ensures forall i :: 0 <= i < |tos| ==> tos'[i].selfpc == tos[i].selfpc
    ensures forall i :: 0 <= i < |tos| ==> tos'[i].count == tos[i].count + if i == c[k] then 1 else 0
  {
    hide Different;
  }

  lemma MoveKeepsShape(froms: seq<nat>, tos: seq<Arc>, chains: seq<seq<nat>>, home: seq<nat>, b: nat, k: nat,
        tos': seq<Arc>)
    requires Shape(froms, tos, chains, home) && b < |froms| && k < |chains[b]| && Move(tos, chains[b], k, tos')
    ensures |tos'| == |tos| && Elsewhere(b, tos, tos', home)
    ensures var chains' := chains[b := MovedUp(chains[b], k)];
            Shape(froms[b := chains[b][k]], tos', chains', home) && InRange(chains', |tos|)
  {
    BucketOf(froms, tos, chains, home, b);
    var c := chains[b];
    MoveEntries(tos, c, k, tos');
    assert froms[b] == c[0];
    assert Elsewhere(b, tos, tos', home) by {
      forall i | 0 < i < |home| && home[i] != b
        ensures tos'[i] == tos[i]
      {
        assert Links(b, tos, c, home);
        assert i !in c;
      }
    }
    hide Shape, Bucket, Gathers, Move, MovedUp, Elsewhere;
    MoveBucket(b, tos, c, home, k, tos');
    GathersMoved(b, home, c, k);
    ShapeAfter(froms, tos, chains, home, b, c[k], tos', MovedUp(c, k), home);
    ShapeInRange(froms[b := c[k]], tos', chains[b := MovedUp(c, k)], home);
  }

  lemma GathersMoved(b: nat, home: seq<nat>, c: seq<nat>, k: nat)
    requires Gathers(b, home, home, c) && k < |c|
    ensures Gathers(b, home, home, MovedUp(c, k))
  {
    hide MovedUp;
    MovedUpSame(c, k);
  }

  lemma MoveKeepsCounts(froms: seq<nat>, tos: seq<Arc>, chains: seq<seq<nat>>, home: seq<nat>, calls: seq<Hit>,
                        b: nat, k: nat, tos': seq<Arc>)
    requires Shape(froms, tos, chains, home) && b < |froms| && k < |chains[b]| && Move(tos, chains[b], k, tos')
    requires |tos'| == |tos| && Elsewhere(b, tos, tos', home)
    requires InRange(chains, |tos|) && Counted(tos, chains, calls)
    requires InRange(chains[b := MovedUp(chains[b], k)], |tos|)
    ensures Counted(tos', chains[b := MovedUp(chains[b], k)], calls + [Hit(b, tos[chains[b][k]].selfpc)])
  {
    BucketOf(froms, tos, chains, home, b);
    var c := chains[b];
    var d := MovedUp(c, k);
    var pc := tos[c[k]].selfpc;
    MoveEntries(tos, c, k, tos');
    MovedUpSame(c, k);
    FoundAt(tos, c, k);
    RelinkedDifferent(tos, c, k, tos');
    assert forall j :: 0 <= j < |d| ==> d[j] < |tos|;
    OnlyOne(tos, c, k);
    hide Shape, Bucket, Gathers, Move, MovedUp, Elsewhere, Lookup, Find, Different;
    forall x
      ensures Lookup(tos', d, x) == Lookup(tos, c, x) + if x == pc then 1 else 0
    {
      LookupMoved(tos, c, tos', d, pc, x);
    }
    CountedAfter(froms, tos, chains, home, calls, b, tos', d, pc);
  }

  lemma OnlyOne(tos: seq<Arc>, c: seq<nat>, k: nat)
    requires Different(tos, c) && k < |c|
    ensures forall i :: i in c ==> i < |tos| && (tos[i].selfpc == tos[c[k]].selfpc <==> i == c[k])
  {
  }

  lemma FoundAt(tos: seq<Arc>, c: seq<nat>, k: nat)
    requires k < |c| && forall j :: 0 <= j < |c| ==> c[j] < |tos|
    ensures Find(tos, c, tos[c[k]].selfpc) < |c|
  {
  }

  // ---------- db_prof_count ----------

  datatype Profiling = On | Busy | Error | Off

  ghost function Distinct(calls: seq<Hit>): set<Hit> { set h | h in calls }

  /** struct gmonparam */
  class Gmon {
    var state: Profiling
    const froms: array<nat>
    const tos: array<Arc>
    const lowpc: nat
    const textsize: nat
    const hashfraction: nat
    ghost var chains: seq<seq<nat>>
    ghost var home: seq<nat>
    ghost var calls: seq<Hit>

    /** frompc relative to the text, in unsigned arithmetic. */
    function Offset(frompc: nat): nat
      requires lowpc < W64
    {
      (frompc + W64 - lowpc) % W64
    }

    /** The hash bucket of an offset; an entry of froms has two bytes. */
    function Hash(off: nat): (b: nat)
      requires hashfraction > 0
    {
      DivMonotone(0, off, 2 * hashfraction);
      off / (2 * hashfraction)
    }

    /** The chains are well formed, cover the allocated entries, and hold the number of calls of each arc. */
    ghost predicate Valid()
      reads this, froms, tos
    {
      && lowpc < W64 && hashfraction > 0 && 0 < tos.Length && |chains| == froms.Length
      && Shape(froms[..], tos[..], chains, home) && InRange(chains, tos.Length)
      && Counted(tos[..], chains, calls) && |home| == |Distinct(calls)| + 1
      && (state == On ==> tos[0].link == |home| - 1)
    }

    /** Zeroed tables. */
    constructor (buckets: nat, entries: nat, lowpc: nat, textsize: nat, hashfraction: nat)
      requires lowpc < W64 && hashfraction > 0 && entries > 0
      ensures Valid() && state == On && calls == [] && froms.Length == buckets && tos.Length == entries
    {
      state := On;
      froms := new nat[buckets](_ => 0);
      tos := new Arc[entries](_ => Arc(0, 0, 0));
      this.lowpc, this.textsize, this.hashfraction := lowpc, textsize, hashfraction;
      chains, home, calls := seq(buckets, _ => []), [0], [];
      new;
      assert forall b, pc :: 0 <= b < |chains| ==> Lookup(tos[..], chains[b], pc) == 0;
      assert Distinct(calls) == {};
    }

    /** An arc not seen before: a new entry at the head of its chain, or the end of profiling if there is none left. */
    method Allocate(b: nat, selfpc: nat)
      requires Valid() && state == On && b < froms.Length && Hit(b, selfpc) !in calls
      requires Find(tos[..], chains[b], selfpc) == |chains[b]|
      modifies this, froms, tos
      ensures Valid()
      ensures if |Distinct(old(calls))| + 1 < tos.Length then state == On && calls == old(calls) + [Hit(b, selfpc)]
              else state == Error && calls == old(calls)
    {
      hide Shape, InRange, Counted, Distinct, Find;
      ghost var f0, t0 := froms[..], tos[..];
      ShapeSize(f0, t0, chains, home);
      var toindex: nat := tos[0].link + 1;
      tos[0] := tos[0].(link := toindex);
      if toindex >= tos.Length {
        state := Error;
        HeaderChange(f0, t0, chains, home, calls, tos[..]);
        assert froms[..] == f0;
        return;
      }
      tos[toindex] := Arc(selfpc, 1, froms[b]);
      froms[b] := toindex;
      PushKeepsShape(f0, t0, chains, home, b, tos[..], selfpc);
      PushKeepsCounts(f0, t0, chains, home, calls, b, tos[..], selfpc);
      assert froms[..] == f0[b := toindex];
      DistinctMore(calls, Hit(b, selfpc));
      chains, home := chains[b := [toindex] + chains[b]], home + [b];
      calls := calls + [Hit(b, selfpc)];
    }

    /** Three links move an entry from behind `prevtop` to the head of chain b. */
    method LinkFirst(b: nat, prevtop: nat, top: nat)
      requires b < froms.Length && prevtop < tos.Length && top < tos.Length && prevtop != top
               && tos[prevtop].link == top
      modifies froms, tos
      ensures froms[..] == old(froms[..])[b := top]
      ensures var t := old(tos[..]);
              tos[..] == t[prevtop := t[prevtop].(link := t[top].link)][top := t[top].(link := old(froms[b]))]
    {
      var toindex := tos[prevtop].link;
      tos[prevtop] := tos[prevtop].(link := tos[top].link);
      tos[top] := tos[top].(link := froms[b]);
      froms[b] := toindex;
    }

    /** The entry found is counted once more and, unless it is the head, moved there. */
    method Raise(b: nat, prevtop: nat, top: nat, ghost c: seq<nat>, ghost k: nat)
      requires b < froms.Length && k < |c| && top == c[k] < tos.Length && froms[b] == c[0] < tos.Length
      requires c[k] == c[0] <==> k == 0
      requires k > 0 ==> prevtop == c[k - 1] < tos.Length && prevtop != top && tos[prevtop].link == top
      modifies froms, tos
      ensures froms[..] == old(froms[..])[b := top] && Move(old(tos[..]), c, k, tos[..])
    {
      ghost var t0 := tos[..];
      tos[top] := tos[top].(count := tos[top].count + 1);
      assert tos[..] == t0[top := t0[top].(count := t0[top].count + 1)];
      if froms[b] != top {
        LinkFirst(b, prevtop, top);
      }
      MoveIs(t0, c, k, tos[..]);
    }

    method Promote(b: nat, prevtop: nat, top: nat, ghost k: nat)
      requires Valid() && state == On && b < froms.Length && k < |chains[b]| && top == chains[b][k]
      requires k > 0 ==> prevtop == chains[b][k - 1]
      modifies this, froms, tos
      ensures Valid() && state == On && calls == old(calls) + [Hit(b, old(tos[top]).selfpc)]
    {
      hide Shape, InRange, Counted, Move, MovedUp, Distinct;
      ghost var f0, t0, c := froms[..], tos[..], chains[b];
      PromoteFacts(f0, t0, chains, home, calls, b, k);
      ghost var pc := tos[top].selfpc;
      Raise(b, prevtop, top, c, k);
      MoveKeeps(f0, t0, chains, home, calls, b, k, tos[..]);
      chains := chains[b := MovedUp(c, k)];
      calls := calls + [Hit(b, pc)];
    }

    /**
     * db_prof_count: a call inside the text is counted, as long as an entry is left for every arc.
     * `beyond` tells that the bucket of the call is not in the table, of which the code reads on past the end.
     */
    method Count(frompc: nat, selfpc: nat) returns (beyond: bool)
      requires Valid()
      modifies this, froms, tos
      ensures Valid()
      ensures var off := Offset(frompc);
              && beyond == (old(state) == On && off <= textsize && Hash(off) >= froms.Length)
              && if old(state) != On || off > textsize || beyond then state == old(state) && calls == old(calls)
                 else
                   var h := Hit(Hash(off), selfpc);
                   if h in old(calls) || |Distinct(old(calls))| + 1 < tos.Length
                   then state == On && calls == old(calls) + [h]
                   else state == Error && calls == old(calls)
    {
      hide Shape, InRange, Counted, Distinct;
      if state != On {
        return false;
      }
      var off := Offset(frompc);
      if off > textsize {
        return false;
      }
      var b := Hash(off);
      if b >= froms.Length {
        return true;
      }
      beyond := false;
      ghost var c := chains[b];
      var top := froms[b];
      BucketOf(froms[..], tos[..], chains, home, b);
      if top == 0 {
        NotSeen(froms[..], tos[..], chains, home, calls, b, selfpc);
        Allocate(b, selfpc);
        return;
      }
      if tos[top].selfpc == selfpc {
        SeenBefore(froms[..], tos[..], chains, home, calls, b, 0);
        Promote(b, 0, top, 0);
        return;
      }
      ghost var k: nat := 0;
      while true
        invariant k < |c| && top == c[k] && forall j :: 0 <= j <= k ==> tos[c[j]].selfpc != selfpc
        decreases |c| - k
      {
        if tos[top].link == 0 {
          assert k + 1 == |c|;
          NotSeen(froms[..], tos[..], chains, home, calls, b, selfpc);
          Allocate(b, selfpc);
          return;
        }
        var prevtop := top;
        top := tos[top].link;
        k := k + 1;
        if tos[top].selfpc == selfpc {
          SeenBefore(froms[..], tos[..], chains, home, calls, b, k);
          Promote(b, prevtop, top, k);
          return;
        }
      }
    }
  }

  /** The bucket of an offset: each covers 2 hashfraction bytes of text. */
  lemma HashIs(g: Gmon, off: nat)
    requires g.hashfraction > 0
    ensures 2 * g.hashfraction * g.Hash(off) <= off < 2 * g.hashfraction * (g.Hash(off) + 1)
  {
    var d := 2 * g.hashfraction;
    DivMod(off, d);
    assert d * (g.Hash(off) + 1) == d * g.Hash(off) + d;
    assert d * g.Hash(off) == g.Hash(off) * d;
  }

  /** The distance of a program counter from the text, or a number far beyond it for those before the text. */
  lemma OffsetIs(g: Gmon, frompc: nat)
    requires g.lowpc < W64 && frompc < W64
    ensures frompc >= g.lowpc ==> g.Offset(frompc) == frompc - g.lowpc
    ensures frompc < g.lowpc ==> g.Offset(frompc) == frompc + W64 - g.lowpc
  {
    if frompc >= g.lowpc {
      DivModUnique(frompc + W64 - g.lowpc, 1, W64, frompc - g.lowpc);
    } else {
      SmallMod(frompc + W64 - g.lowpc, W64);
    }
  }

  /**
   * With the tables that prof_init allocates, textsize / hashfraction bytes of froms, every offset into the text has
   * its bucket except the last, textsize itself, which the code lets pass.
   */
  lemma KernelTables(g: Gmon, off: nat)
    requires g.hashfraction > 0 && g.textsize % (2 * g.hashfraction) == 0 && off <= g.textsize
    requires g.froms.Length == g.textsize / g.hashfraction / 2
    ensures g.Hash(off) < g.froms.Length <==> off != g.textsize
  {
    var d := 2 * g.hashfraction;
    var q := g.textsize / d;
    HashIs(g, off);
    DivMod(g.textsize, d);
    TwiceQuotient(g.textsize, q, g.hashfraction);
    MulAtLeast(g.Hash(off) - q, d);
    assert (g.Hash(off) - q) * d == d * g.Hash(off) - q * d;
    MulAtLeast(q - g.Hash(off) - 1, d);
    assert (q - g.Hash(off) - 1) * d == q * d - d * (g.Hash(off) + 1);
  }

  lemma TwiceQuotient(t: nat, q: nat, h: nat)
    requires h > 0 && t == q * (2 * h)
    ensures t / h / 2 == q
  {
    assert t == (2 * q) * h;
    DivModUnique(t, 2 * q, h, 0);
  }

  lemma PromoteFacts(froms: seq<nat>, tos: seq<Arc>, chains: seq<seq<nat>>, home: seq<nat>, calls: seq<Hit>, b: nat,
        k: nat)
    requires Shape(froms, tos, chains, home) && InRange(chains, |tos|) && Counted(tos, chains, calls)
    requires b < |froms| && k < |chains[b]|
    ensures var c := chains[b];
            && froms[b] == c[0] < |tos| && 0 < c[k] < |tos| && (c[k] == c[0] <==> k == 0)
            && Hit(b, tos[c[k]].selfpc) in calls
            && (k > 0 ==> 0 < c[k - 1] < |tos| && c[k - 1] != c[k] && tos[c[k - 1]].link == c[k])
  {
    BucketOf(froms, tos, chains, home, b);
    SeenBefore(froms, tos, chains, home, calls, b, k);
    HeadIs(tos, chains[b], k);
    if k > 0 {
      EntriesDiffer(tos, chains[b], k - 1, k);
    }
  }

  lemma MoveIs(tos: seq<Arc>, c: seq<nat>, k: nat, tos': seq<Arc>)
    requires k < |c| && c[0] < |tos| && c[k] < |tos| && (k > 0 ==> c[k - 1] < |tos| && c[k - 1] != c[k])
    requires var t := tos[c[k] := tos[c[k]].(count := tos[c[k]].count + 1)];
             tos' == if k == 0 then t
                     else t[c[k - 1] := t[c[k - 1]].(link := t[c[k]].link)][c[k] := t[c[k]].(link := c[0])]
    ensures Move(tos, c, k, tos')
  {
  }

  lemma MoveKeeps(froms: seq<nat>, tos: seq<Arc>, chains: seq<seq<nat>>, home: seq<nat>, calls: seq<Hit>,
                  b: nat, k: nat, tos': seq<Arc>)
    requires Shape(froms, tos, chains, home) && InRange(chains, |tos|) && Counted(tos, chains, calls)
    requires b < |froms| && k < |chains[b]| && Move(tos, chains[b], k, tos')
    ensures |tos'| == |tos| && tos'[0] == tos[0]
    ensures var chains' := chains[b := MovedUp(chains[b], k)];
            var h := Hit(b, tos[chains[b][k]].selfpc);
            && Shape(froms[b := chains[b][k]], tos', chains', home) && InRange(chains', |tos'|)
            && Counted(tos', chains', calls + [h]) && Distinct(calls + [h]) == Distinct(calls)
  {
    PromoteFacts(froms, tos, chains, home, calls, b, k);
    hide Shape, InRange, Counted, Move, MovedUp, Distinct, Elsewhere;
    MoveHeader(tos, chains[b], k, tos');
    MoveKeepsShape(froms, tos, chains, home, b, k, tos');
    MoveKeepsCounts(froms, tos, chains, home, calls, b, k, tos');
    DistinctSame(calls, Hit(b, tos[chains[b][k]].selfpc));
  }

  lemma MoveHeader(tos: seq<Arc>, c: seq<nat>, k: nat, tos': seq<Arc>)
    requires Move(tos, c, k, tos') && 0 < c[k] && (k > 0 ==> 0 < c[k - 1])
    ensures |tos'| == |tos| && tos'[0] == tos[0]
  {
  }

  lemma HeadIs(tos: seq<Arc>, c: seq<nat>, k: nat)
    requires Different(tos, c) && k < |c|
    ensures c[k] == c[0] <==> k == 0
  {
  }

  /** An entry's count is the number of calls of its arc, and there has been one. */
  lemma SeenBefore(froms: seq<nat>, tos: seq<Arc>, chains: seq<seq<nat>>, home: seq<nat>, calls: seq<Hit>, b: nat,
        k: nat)
    requires Shape(froms, tos, chains, home) && InRange(chains, |tos|) && Counted(tos, chains, calls)
    requires b < |froms| && k < |chains[b]|
    ensures Hit(b, tos[chains[b][k]].selfpc) in calls
    ensures tos[chains[b][k]].count == Tally(calls, Hit(b, tos[chains[b][k]].selfpc))
  {
    BucketOf(froms, tos, chains, home, b);
    LookupAt(tos, chains[b], k);
    TallyIn(calls, Hit(b, tos[chains[b][k]].selfpc));
  }

  /** An arc that is not in its chain has never been called. */
  lemma NotSeen(froms: seq<nat>, tos: seq<Arc>, chains: seq<seq<nat>>, home: seq<nat>, calls: seq<Hit>, b: nat, pc: nat)
    requires Shape(froms, tos, chains, home) && InRange(chains, |tos|) && Counted(tos, chains, calls)
    requires b < |froms| && forall j :: 0 <= j < |chains[b]| ==> tos[chains[b][j]].selfpc != pc
    ensures Hit(b, pc) !in calls && Find(tos, chains[b], pc) == |chains[b]|
  {
    BucketOf(froms, tos, chains, home, b);
    LookupAbsent(tos, chains[b], pc);
    TallyIn(calls, Hit(b, pc));
  }

  lemma ShapeSize(froms: seq<nat>, tos: seq<Arc>, chains: seq<seq<nat>>, home: seq<nat>)
    requires Shape(froms, tos, chains, home)
    ensures 0 < |home| <= |tos|
  {
  }

  lemma DistinctMore(calls: seq<Hit>, h: Hit)
    requires h !in calls
    ensures |Distinct(calls + [h])| == |Distinct(calls)| + 1
  {
    assert Distinct(calls + [h]) == Distinct(calls) + {h};
  }

  lemma DistinctSame(calls: seq<Hit>, h: Hit)
    requires h in calls
    ensures Distinct(calls + [h]) == Distinct(calls)
  {
  }

  /** Entry 0 only holds the number of entries in use. */
  lemma HeaderChange(froms: seq<nat>, tos: seq<Arc>, chains: seq<seq<nat>>, home: seq<nat>, calls: seq<Hit>,
        tos': seq<Arc>)
    requires Shape(froms, tos, chains, home) && InRange(chains, |tos|) && Counted(tos, chains, calls)
    requires |tos'| == |tos| && forall i :: 0 < i < |tos| ==> tos'[i] == tos[i]
    ensures Shape(froms, tos', chains, home) && Counted(tos', chains, calls)
  {
    forall d | 0 <= d < |froms|
      ensures Bucket(d, froms[d], tos', chains[d], home)
    {
      BucketOf(froms, tos, chains, home, d);
      BucketFrame(d, froms[d], tos, tos', chains[d], home, home);
    }
    forall d, x | 0 <= d < |chains|
      ensures Lookup(tos', chains[d], x) == Tally(calls, Hit(d, x))
    {
      BucketOf(froms, tos, chains, home, d);
      LookupFrame(tos, tos', chains[d], x);
    }
  }
}
