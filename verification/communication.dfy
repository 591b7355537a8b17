/** The per-query session of the poller: the command list is cut into chunks
    the inverter accepts, each chunk is one request/response exchange, and the
    decoded chunks are merged into the session's snapshot. The socket is an
    oracle: for each chunk it says whether sending worked and what was
    received. */
module Communication {
  import opened Text
  import opened Folds
  import opened Catalog
  import opened Codec
  import opened Arith

  function Min(a: int, b: int): int {
    if a <= b then a else b
  }

  // ---------------------------------------------------------------- chunks

  /** Concatenation of a list of lists. */
  function Flatten<T>(ss: seq<seq<T>>): seq<T> {
    if |ss| == 0 then [] else ss[0] + Flatten(ss[1..])
  }

  /** `_chunkCommand`: consecutive pieces of `n` items, the last one possibly
      shorter. */
  function Chunk<T>(l: seq<T>, n: nat): (chunks: seq<seq<T>>)
    requires n > 0
    ensures forall j :: 0 <= j < |chunks| ==> 1 <= |chunks[j]| <= n
    ensures forall j :: 0 <= j < |chunks| - 1 ==> |chunks[j]| == n
    decreases |l|
  {
    if |l| == 0 then []
    else if |l| <= n then [l]
    else [l[..n]] + Chunk(l[n..], n)
  }

  /** Concatenating the chunks gives back the list. */
  lemma {:induction false} ChunkFlatten<T>(l: seq<T>, n: nat)
    requires n > 0
    ensures Flatten(Chunk(l, n)) == l
    decreases |l|
  {
    if 0 < |l| <= n {
      assert Flatten([l]) == l + Flatten([l][1..]);
    } else if |l| > n {
      ChunkFlatten(l[n..], n);
      var r := Chunk(l, n);
      assert r[0] == l[..n] && r[1..] == Chunk(l[n..], n);
      assert l[..n] + l[n..] == l;
    }
  }

  /** There are `ceil(|l| / n)` chunks. */
  lemma {:induction false} ChunkCount<T>(l: seq<T>, n: nat)
    requires n > 0
    ensures |Chunk(l, n)| == (|l| + n - 1) / n
    decreases |l|
  {
    if |l| == 0 {
      DivUnique(n - 1, n, 0, n - 1);
    } else if |l| <= n {
      DivUnique(|l| + n - 1, n, 1, |l| - 1);
    } else {
      ChunkCount(l[n..], n);
      var m := |l| - n + n - 1;
      var q, r := m / n, m % n;
      assert m == q * n + r;
      DivUnique(|l| + n - 1, n, q + 1, r);
    }
  }

  /** `j * n`, counted up one chunk at a time. */
  function Offset(j: nat, n: nat): nat {
    if j == 0 then 0 else Offset(j - 1, n) + n
  }

  lemma {:induction false} OffsetIsProduct(j: nat, n: nat)
    ensures Offset(j, n) == j * n
    decreases j
  {
    if j > 0 {
      OffsetIsProduct(j - 1, n);
      MulSub(j, 1, n);
    }
  }

  lemma {:induction false} ChunkAtOffset<T>(l: seq<T>, n: nat, j: nat)
    requires n > 0 && j < |Chunk(l, n)|
    ensures Offset(j, n) < |l|
    ensures Chunk(l, n)[j] == l[Offset(j, n)..Min(Offset(j, n) + n, |l|)]
    decreases j
  {
    if j == 0 {
      assert Offset(j, n) == 0;
      assert |l| > 0 by {
        assert |Chunk(l, n)[0]| >= 1;
      }
    } else {
      assert |l| > n;
      var tail := l[n..];
      var rest := Chunk(tail, n);
      assert Chunk(l, n)[j] == rest[j - 1] by {
        assert Chunk(l, n) == [l[..n]] + rest;
      }
      ChunkAtOffset(tail, n, j - 1);
      var lo := Offset(j - 1, n);
      var hi := Min(lo + n, |tail|);
      assert rest[j - 1] == tail[lo..hi];
      SliceOfSuffix(l, n, lo, hi);
      assert Offset(j, n) == lo + n;
      assert Min(Offset(j, n) + n, |l|) == hi + n;
      assert Chunk(l, n)[j] == l[lo + n..hi + n];
    }
  }

  /** The chunks are the slices `l[j*n : j*n+n]` of the source's list
      comprehension. */
  lemma ChunkStride<T>(l: seq<T>, n: nat, j: nat)
    requires n > 0 && j < |Chunk(l, n)|
    ensures j * n < |l|
    ensures Chunk(l, n)[j] == l[j * n..Min(j * n + n, |l|)]
  {
    ChunkAtOffset(l, n, j);
    OffsetIsProduct(j, n);
  }

  lemma SliceOfSuffix<T>(l: seq<T>, n: nat, lo: nat, hi: nat)
    requires n <= |l| && lo <= hi <= |l| - n
    ensures l[n..][lo..hi] == l[lo + n..hi + n]
  {
  }

  /** Exactly `n` items make one chunk. */
  lemma ChunkExact<T>(l: seq<T>, n: nat)
    requires n > 0 && |l| == n
    ensures Chunk(l, n) == [l]
  {
  }

  /** `n + 1` items make a full chunk and a chunk holding the last item. */
  lemma ChunkOneMore<T>(l: seq<T>, n: nat)
    requires n > 0 && |l| == n + 1
    ensures Chunk(l, n) == [l[..n], [l[n]]]
  {
    assert Chunk(l[n..], n) == [l[n..]];
    assert l[n..] == [l[n]];
  }

  // ---------------------------------------------------------------- list difference

  /** `_difflist`: every item of `a + b`, in order and with repetitions, that
      is missing from one of the two lists. */
  function DiffList(a: seq<string>, b: seq<string>): (r: seq<string>)
    ensures forall x :: x in r <==> (x in a) != (x in b)
    ensures forall x :: multiset(r)[x] == if (x in a) != (x in b) then multiset(a + b)[x] else 0
  {
    KeepMissing(a, b, a + b)
  }

  /** The filter of the list comprehension over `items`. */
  function KeepMissing(a: seq<string>, b: seq<string>, items: seq<string>): (r: seq<string>)
    ensures forall x :: x in r <==> x in items && (x !in a || x !in b)
    ensures forall x :: multiset(r)[x] == if x !in a || x !in b then multiset(items)[x] else 0
    decreases |items|
  {
    if |items| == 0 then []
    else
      var rest := KeepMissing(a, b, items[1..]);
      assert items == [items[0]] + items[1..];
      assert multiset(items) == multiset([items[0]]) + multiset(items[1..]);
      if items[0] !in a || items[0] !in b then [items[0]] + rest else rest
  }

  /** A key the inverter answered but nobody asked for is reported too: the
      difference is symmetric, not "requested minus present". */
  lemma DiffListIsSymmetric()
    ensures DiffList(["PAC"], ["PAC", "KDY"]) == ["KDY"]
  {
    var a, b := ["PAC"], ["PAC", "KDY"];
    assert "KDY" != "PAC";
    assert KeepMissing(a, b, []) == [];
    assert KeepMissing(a, b, ["KDY"]) == ["KDY"];
    assert ["PAC", "KDY"][1..] == ["KDY"];
    assert KeepMissing(a, b, ["PAC", "KDY"]) == ["KDY"];
    assert (a + b)[1..] == ["PAC", "KDY"];
  }

  // ---------------------------------------------------------------- session

  /** What the socket did for one chunk: whether `send` raised, and the text
      `_receive` returned (empty on error). */
  datatype Reply = Reply(sendOk: bool, received: string)

  /** The state of a `communication` object that the query touches. */
  datatype Session = Session(
    connected: bool,
    decoded: Snapshot,
    decodedLast: Snapshot,
    commandMap: Table,
    maxCommands: nat)

  /** A new `communication` object with the default chunk size of 20;
      `connected` is whether the constructor's connection attempt worked. */
  function NewSession(connected: bool): (s: Session)
    ensures s.connected == connected && s.decoded == map[] && s.decodedLast == map[]
    ensures s.commandMap == QueryMap && s.maxCommands == 20
  {
    Session(connected, map[], map[], QueryMap, 20)
  }

  /** One exchange: whether it succeeded, the session after it, and the
      request written to the socket, if any. */
  datatype Exchange = Exchange(ok: bool, session: Session, sent: seq<string>)

  /** `_subquery`. Without a connection nothing is sent. Otherwise the request
      is sent (a send error clears `connected` but the reply is still read),
      and a reply whose checksum validates is decoded into the snapshot. A
      bad checksum leaves the connection as it is. */
  function SubQuery(s: Session, cmds: seq<string>, reply: Reply): (e: Exchange)
    ensures !s.connected ==> e == Exchange(false, s, [])
    ensures s.connected ==> e.sent == [Encode(cmds)]
    ensures s.connected ==> e.session.connected == reply.sendOk
    ensures e.ok <==> s.connected && Validate(reply.received)
    ensures e.session.decoded == if e.ok then s.decoded + Decode(s.commandMap, reply.received) else s.decoded
    ensures e.session.decodedLast == s.decodedLast && e.session.commandMap == s.commandMap
    ensures e.session.maxCommands == s.maxCommands
  {
    if !s.connected then Exchange(false, s, [])
    else
      var sent := s.(connected := reply.sendOk);
      if Validate(reply.received) then
        Exchange(true, sent.(decoded := sent.decoded + Decode(sent.commandMap, reply.received)), [Encode(cmds)])
      else
        Exchange(false, sent, [Encode(cmds)])
  }

  /** Chunk `j` is reached with the connection up: the session was connected
      and every earlier send worked. */
  predicate ConnectedBefore(connected: bool, replies: seq<Reply>, j: nat)
    requires j <= |replies|
  {
    connected && forall i :: 0 <= i < j ==> replies[i].sendOk
  }

  /** Chunk `j` succeeds. */
  predicate Passes(connected: bool, replies: seq<Reply>, j: nat)
    requires j < |replies|
  {
    ConnectedBefore(connected, replies, j) && Validate(replies[j].received)
  }

  lemma ConnectedShift(connected: bool, replies: seq<Reply>, j: nat)
    requires 0 < j <= |replies|
    ensures ConnectedBefore(connected, replies, j) <==> ConnectedBefore(connected && replies[0].sendOk, replies[1..], j - 1)
  {
    var tail := replies[1..];
    assert forall i :: 0 <= i < j - 1 ==> tail[i] == replies[i + 1];
    if connected && replies[0].sendOk && ConnectedBefore(connected && replies[0].sendOk, tail, j - 1) {
      forall i | 0 <= i < j ensures replies[i].sendOk {
        if i > 0 { assert replies[i] == tail[i - 1]; }
      }
    }
  }

  lemma PassesShift(connected: bool, replies: seq<Reply>, j: nat)
    requires 0 < j < |replies|
    ensures Passes(connected, replies, j) <==> Passes(connected && replies[0].sendOk, replies[1..], j - 1)
  {
    ConnectedShift(connected, replies, j);
    assert replies[1..][j - 1] == replies[j];
  }

  /** The number of chunks that succeed before the first failure. */
  function Leading(connected: bool, replies: seq<Reply>): (k: nat)
    ensures k <= |replies|
    ensures forall j :: 0 <= j < k ==> Passes(connected, replies, j)
    ensures k < |replies| ==> !Passes(connected, replies, k)
    decreases |replies|
  {
    if |replies| == 0 || !Passes(connected, replies, 0) then 0
    else
      var k := 1 + Leading(connected && replies[0].sendOk, replies[1..]);
      forall j | 0 < j <= k && j < |replies| ensures Passes(connected, replies, j) <==> j < k {
        PassesShift(connected, replies, j);
      }
      k
  }

  /** The number of chunks whose request was written: the leading successes
      and the failing chunk, if the connection was still up for it. */
  function Attempted(connected: bool, replies: seq<Reply>): (a: nat)
    ensures a <= |replies|
    ensures a == 0 <==> !connected || |replies| == 0
  {
    var k := Leading(connected, replies);
    if k < |replies| && ConnectedBefore(connected, replies, k) then k + 1 else k
  }

  /** The snapshots decoded from a run of replies, with a given table. */
  function Decodes(table: Table, replies: seq<Reply>): (ds: seq<Snapshot>)
    ensures |ds| == |replies|
  {
    if |replies| == 0 then [] else [Decode(table, replies[0].received)] + Decodes(table, replies[1..])
  }

  lemma {:induction false} DecodesAt(table: Table, replies: seq<Reply>, j: nat)
    requires j < |replies|
    ensures Decodes(table, replies)[j] == Decode(table, replies[j].received)
    decreases j
  {
    if j > 0 {
      DecodesAt(table, replies[1..], j - 1);
    }
  }

  /** The request texts of a run of chunks. */
  function Requests(chunks: seq<seq<string>>): seq<string> {
    seq(|chunks|, j requires 0 <= j < |chunks| => Encode(chunks[j]))
  }

  /** The `for cmds in cmdchunks` loop of `query`: stops at the first failing
      chunk. */
  function RunChunks(s: Session, chunks: seq<seq<string>>, replies: seq<Reply>): (e: Exchange)
    requires |replies| == |chunks| > 0
    ensures e.session.decodedLast == s.decodedLast && e.session.commandMap == s.commandMap
    ensures e.session.maxCommands == s.maxCommands
    decreases |chunks|
  {
    var first := SubQuery(s, chunks[0], replies[0]);
    if !first.ok || |chunks| == 1 then
      first
    else
      var rest := RunChunks(first.session, chunks[1..], replies[1..]);
      Exchange(rest.ok, rest.session, first.sent + rest.sent)
  }

  /** After a successful first chunk the counts move on by one. */
  lemma LeadingStep(connected: bool, replies: seq<Reply>)
    requires |replies| > 1 && Passes(connected, replies, 0)
    ensures Leading(connected, replies) == 1 + Leading(connected && replies[0].sendOk, replies[1..])
    ensures Attempted(connected, replies) == 1 + Attempted(connected && replies[0].sendOk, replies[1..])
  {
    var k' := Leading(connected && replies[0].sendOk, replies[1..]);
    if k' < |replies| - 1 {
      ConnectedShift(connected, replies, k' + 1);
    }
  }

  /** The loop succeeds exactly when every chunk passes. */
  lemma {:induction false} RunChunksOk(s: Session, chunks: seq<seq<string>>, replies: seq<Reply>)
    requires |replies| == |chunks| > 0
    ensures RunChunks(s, chunks, replies).ok <==> Leading(s.connected, replies) == |chunks|
    decreases |chunks|
  {
    var first := SubQuery(s, chunks[0], replies[0]);
    if first.ok && |chunks| > 1 {
      LeadingStep(s.connected, replies);
      RunChunksOk(first.session, chunks[1..], replies[1..]);
    }
  }

  lemma DecodesStep(t: Table, replies: seq<Reply>, k: nat)
    requires 0 < k <= |replies|
    ensures Decodes(t, replies[..k]) == [Decode(t, replies[0].received)] + Decodes(t, replies[1..][..k - 1])
  {
    assert replies[..k][0] == replies[0];
    assert replies[..k][1..] == replies[1..][..k - 1];
  }

  lemma RequestsAppend(xs: seq<seq<string>>, ys: seq<seq<string>>)
    ensures Requests(xs + ys) == Requests(xs) + Requests(ys)
  {
    var l := Requests(xs + ys);
    var r := Requests(xs) + Requests(ys);
    assert |l| == |r|;
    forall i | 0 <= i < |l| ensures l[i] == r[i] {
      if i < |xs| {
        assert (xs + ys)[i] == xs[i];
      } else {
        assert (xs + ys)[i] == ys[i - |xs|];
      }
    }
  }

  lemma RequestsStep(chunks: seq<seq<string>>, a: nat)
    requires 0 < a <= |chunks|
    ensures Requests(chunks[..a]) == [Encode(chunks[0])] + Requests(chunks[1..][..a - 1])
  {
    assert chunks[..a] == [chunks[0]] + chunks[1..][..a - 1];
    RequestsAppend([chunks[0]], chunks[1..][..a - 1]);
  }

  lemma MergeStep<K, V>(acc: map<K, V>, m: map<K, V>, ms: seq<map<K, V>>)
    ensures Merge(acc, [m] + ms) == Merge(acc + m, ms)
  {
    assert ([m] + ms)[0] == m && ([m] + ms)[1..] == ms;
  }

  /** The snapshot is the start snapshot updated with the decodes of the
      chunks that passed, in order. */
  lemma {:induction false} RunChunksDecoded(s: Session, chunks: seq<seq<string>>, replies: seq<Reply>)
    requires |replies| == |chunks| > 0
    ensures RunChunks(s, chunks, replies).session.decoded
      == Merge(s.decoded, Decodes(s.commandMap, replies[..Leading(s.connected, replies)]))
    decreases |chunks|
  {
    var first := SubQuery(s, chunks[0], replies[0]);
    var t := s.commandMap;
    var k := Leading(s.connected, replies);
    if !first.ok {
      assert replies[..k] == [];
    } else {
      DecodesStep(t, replies, k);
      MergeStep(s.decoded, Decode(t, replies[0].received), Decodes(t, replies[1..][..k - 1]));
      if |chunks| == 1 {
        assert replies[1..][..k - 1] == [];
      } else {
        LeadingStep(s.connected, replies);
        RunChunksDecoded(first.session, chunks[1..], replies[1..]);
      }
    }
  }

  /** The requests written are those of the attempted chunks, in order. */
  lemma {:induction false} RunChunksSent(s: Session, chunks: seq<seq<string>>, replies: seq<Reply>)
    requires |replies| == |chunks| > 0
    ensures RunChunks(s, chunks, replies).sent == Requests(chunks[..Attempted(s.connected, replies)])
    decreases |chunks|
  {
    var first := SubQuery(s, chunks[0], replies[0]);
    var a := Attempted(s.connected, replies);
    if !s.connected {
      assert chunks[..a] == [];
    } else {
      RequestsStep(chunks, a);
      if !first.ok || |chunks| == 1 {
        assert chunks[1..][..a - 1] == [];
      } else {
        LeadingStep(s.connected, replies);
        RunChunksSent(first.session, chunks[1..], replies[1..]);
      }
    }
  }

  /** The connection is up afterwards exactly when it was up before and
      every request written was sent without error. */
  lemma {:induction false} RunChunksConnected(s: Session, chunks: seq<seq<string>>, replies: seq<Reply>)
    requires |replies| == |chunks| > 0
    ensures RunChunks(s, chunks, replies).session.connected
      == ConnectedBefore(s.connected, replies, Attempted(s.connected, replies))
    decreases |chunks|
  {
    var first := SubQuery(s, chunks[0], replies[0]);
    if first.ok && |chunks| > 1 {
      LeadingStep(s.connected, replies);
      RunChunksConnected(first.session, chunks[1..], replies[1..]);
      ConnectedShift(s.connected, replies, Attempted(s.connected, replies));
    }
  }

  /** The outcome of `query`: the status, the session afterwards, the
      requests written, and the codes the `unsupported params` warning names
      (only computed on success). */
  datatype QueryResult = QueryResult(ok: bool, session: Session, requests: seq<string>, unsupported: set<string>)

  /** The codes in exactly one of the command list and the decoded snapshot:
      the elements of `_difflist(commandlist, list(decodeddata.keys()))`. */
  function Unsupported(cmds: seq<string>, decoded: Snapshot): (u: set<string>)
    ensures forall c :: c in u <==> (c in cmds) != (c in decoded)
  {
    (set c | c in cmds && c !in decoded) + (set k | k in decoded && k !in cmds)
  }

  /** `query`: keep the old snapshot as the previous one, start a fresh
      snapshot, run the chunks, and report the symmetric difference on
      success. The source fails on an empty command list (its status is
      never assigned) and on a chunk size of zero, hence the preconditions. */
  function Query(s: Session, cmds: seq<string>, replies: seq<Reply>): (r: QueryResult)
    requires |cmds| > 0 && s.maxCommands > 0
    requires |replies| == |Chunk(cmds, s.maxCommands)|
    ensures r.session.decodedLast == s.decoded
    ensures r.ok <==> Leading(s.connected, replies) == |replies|
    ensures r.ok <==>
      && s.connected
      && (forall j :: 0 <= j < |replies| ==> Validate(replies[j].received))
      && (forall j :: 0 <= j < |replies| - 1 ==> replies[j].sendOk)
    ensures r.session.decoded == Merge(map[], Decodes(s.commandMap, replies[..Leading(s.connected, replies)]))
    ensures r.requests == Requests(Chunk(cmds, s.maxCommands)[..Attempted(s.connected, replies)])
    ensures r.session.connected == ConnectedBefore(s.connected, replies, Attempted(s.connected, replies))
    ensures r.unsupported == if r.ok then Unsupported(cmds, r.session.decoded) else {}
    ensures r.session.commandMap == s.commandMap && r.session.maxCommands == s.maxCommands
  {
    var cleared := s.(decodedLast := s.decoded, decoded := map[]);
    var chunks := Chunk(cmds, s.maxCommands);
    var run := RunChunks(cleared, chunks, replies);
    RunChunksOk(cleared, chunks, replies);
    RunChunksDecoded(cleared, chunks, replies);
    RunChunksSent(cleared, chunks, replies);
    RunChunksConnected(cleared, chunks, replies);
    AllPass(s.connected, replies);
    QueryResult(run.ok, run.session, run.sent, if run.ok then Unsupported(cmds, run.session.decoded) else {})
  }

  /** Every chunk passes exactly when the session is connected, every reply
      validates and every send but possibly the last one works. */
  lemma AllPass(connected: bool, replies: seq<Reply>)
    requires |replies| > 0
    ensures Leading(connected, replies) == |replies| <==>
      && connected
      && (forall j :: 0 <= j < |replies| ==> Validate(replies[j].received))
      && (forall j :: 0 <= j < |replies| - 1 ==> replies[j].sendOk)
  {
    var n := |replies|;
    if Leading(connected, replies) == n {
      assert Passes(connected, replies, n - 1);
      forall j | 0 <= j < n ensures Validate(replies[j].received) {
        assert Passes(connected, replies, j);
      }
    }
    if connected && (forall j :: 0 <= j < n ==> Validate(replies[j].received))
      && (forall j :: 0 <= j < n - 1 ==> replies[j].sendOk) {
      forall j | 0 <= j < n ensures Passes(connected, replies, j) {
      }
    }
  }

  /** The status, the snapshot and the `unsupported` report do not depend on
      the order in which the snapshot lists its keys: any duplicate-free
      listing of the keys gives the same difference elements. */
  lemma UnsupportedIsDiffList(cmds: seq<string>, decoded: Snapshot, keys: seq<string>)
    requires forall k :: k in keys <==> k in decoded
    ensures forall c :: c in DiffList(cmds, keys) <==> c in Unsupported(cmds, decoded)
  {
  }

  /** A reply with a bad checksum fails the query but keeps the connection. */
  lemma BadChecksumKeepsConnection(s: Session, cmds: seq<string>, replies: seq<Reply>)
    requires |cmds| > 0 && s.maxCommands > 0
    requires |replies| == |Chunk(cmds, s.maxCommands)|
    requires s.connected && forall j :: 0 <= j < |replies| ==> replies[j].sendOk
    requires !Validate(replies[0].received)
    ensures !Query(s, cmds, replies).ok
    ensures Query(s, cmds, replies).session.connected
    ensures Query(s, cmds, replies).session.decoded == map[]
  {
    assert replies[..0] == [];
  }

  /** A failing chunk keeps what the earlier chunks merged. */
  lemma FailureKeepsEarlierChunks(s: Session, cmds: seq<string>, replies: seq<Reply>, k: nat)
    requires |cmds| > 0 && s.maxCommands > 0
    requires |replies| == |Chunk(cmds, s.maxCommands)|
    requires k < |replies|
    requires forall j :: 0 <= j < k ==> Passes(s.connected, replies, j)
    requires !Passes(s.connected, replies, k)
    ensures !Query(s, cmds, replies).ok
    ensures Query(s, cmds, replies).session.decoded == Merge(map[], Decodes(s.commandMap, replies[..k]))
  {
    var l := Leading(s.connected, replies);
    assert l == k;
  }

  /** A code answered by several chunks takes the value of the last one. */
  lemma LaterChunkWins(s: Session, cmds: seq<string>, replies: seq<Reply>, i: nat, code: string)
    requires |cmds| > 0 && s.maxCommands > 0
    requires |replies| == |Chunk(cmds, s.maxCommands)|
    requires Query(s, cmds, replies).ok
    requires i < |replies| && code in Decode(s.commandMap, replies[i].received)
    requires forall j :: i < j < |replies| ==> code !in Decode(s.commandMap, replies[j].received)
    ensures code in Query(s, cmds, replies).session.decoded
    ensures Query(s, cmds, replies).session.decoded[code] == Decode(s.commandMap, replies[i].received)[code]
  {
    var ds := Decodes(s.commandMap, replies);
    assert replies[..|replies|] == replies;
    DecodesAt(s.commandMap, replies, i);
    forall j | i < j < |replies| ensures code !in ds[j] {
      DecodesAt(s.commandMap, replies, j);
    }
    MergeLastWins(map[], ds, i, code);
  }
}
