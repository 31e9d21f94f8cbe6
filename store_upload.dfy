/** A whole upload against the file store manager: the requests a client
    sends for a file cut into segments, run one after another. */
module StoreUpload {
  import opened Wire
  import opened Storage
  import opened StoreModel

  /** The requests run in order from state `s`, each with the id the
      generator would give it, and the outcome of each. */
  function Run(s: State, messages: seq<Message>, freshIds: seq<Id>, digest: seq<byte> -> string)
    : (out: (State, seq<Outcome<SegmentResult>>))
    requires |freshIds| == |messages|
    ensures |out.1| == |messages|
    ensures forall i | 0 <= i < |messages| && CheckRequest(messages[i]).Err? ::
              out.1[i] == Err(CheckRequest(messages[i]).failure)
    ensures forall i | 0 <= i < |messages| && out.1[i].Ok? ::
              out.1[i].value.fileId == ChosenId(messages[i].fileId, freshIds[i])
  {
    if messages == [] then (s, [])
    else
      var k := |messages| - 1;
      var (t, outs) := Run(s, messages[..k], freshIds[..k], digest);
      var (u, o) := StoreSegment(t, messages[k], freshIds[k], digest);
      (u, outs + [o])
  }

  /** Segment `k` (from 1) of an upload of `payloads` as `name`: segment 1
      carries the name and no id, the others carry the id the service
      returned; the last one asks for store with the total size and
      `hash`. */
  function UploadMessage(id: Id, name: string, payloads: seq<seq<byte>>, hash: string, k: nat): Message
    requires 1 <= k <= |payloads|
  {
    var last := k == |payloads|;
    Message(
      if k == 1 then None else Some(id),
      if k == 1 then Some(name) else None,
      Number(k),
      if last then Number(|Concat(payloads)|) else Absent,
      if last then Some(hash) else None,
      if last then Some(StoreLabel) else None,
      payloads[k - 1])
  }

  /** The requests of an upload: one per payload, numbered from 1, the
      first naming the file and the others carrying the id. */
  function Upload(id: Id, name: string, payloads: seq<seq<byte>>, hash: string): (ms: seq<Message>)
    ensures |ms| == |payloads|
    ensures forall i | 0 <= i < |ms| ::
              ms[i].segmentNumber == Number(i + 1) && ms[i].payload == payloads[i]
              && ms[i].fileId == (if i == 0 then None else Some(id))
              && ms[i].name == (if i == 0 then Some(name) else None)
  {
    seq(|payloads|, i requires 0 <= i < |payloads| => UploadMessage(id, name, payloads, hash, i + 1))
  }

  /** A new transfer's id and file name that nothing on the server uses. */
  predicate FreshTransfer(s: State, id: Id, name: string)
  {
    id != "" && name != "" && id !in s.sessions && id !in s.markers && id !in s.dirs
  }

  lemma CheckUploadMessage(id: Id, name: string, payloads: seq<seq<byte>>, hash: string, k: nat)
    requires id != "" && name != "" && hash != ""
    requires 1 <= k <= |payloads|
    ensures CheckRequest(UploadMessage(id, name, payloads, hash, k))
         == Ok(Checked(Some(k), if k == |payloads| then Store(|Concat(payloads)|, hash) else NoResult))
  {
  }

  /** Segment 1 creates the transfer under the generated id. */
  lemma OpenFresh(s: State, id: Id, name: string)
    requires FreshTransfer(s, id, name)
    ensures GetFileEntry(s, None, Some(name), Some(1), id) == (Open(s, id, name, 0, []), Ok(id))
  {
  }

  /** A segment numbered one past the count appends its payload. */
  lemma AppendToOpen(s: State, id: Id, name: string, k: nat, data: seq<byte>, payload: seq<byte>,
                     digest: seq<byte> -> string)
    requires k == 0 ==> data == []
    ensures ProcessEntry(Open(s, id, name, k, data), id, k + 1, NoResult, payload, digest)
         == (Open(s, id, name, k + 1, data + payload), Ok(SegmentResult(id, k + 1, None)))
  {
    var t := Open(s, id, name, k, data);
    var c := Counted(t, id);
    assert c.sessions == s.sessions[id := Entry(name, k + 1, data)];
    var f := c.dirs[id];
    assert Content(f, name) == data;
    assert f[name := data + payload] == map[name := data + payload];
    var (w, _) := WriteSegment(c, id, payload);
    assert w.dirs == s.dirs[id := map[name := data + payload]];
    assert w.sessions == s.sessions[id := Entry(name, k + 1, data + payload)] by {
      if payload == [] {
        assert data + payload == data;
      }
    }
  }

  /** The last segment, numbered one past the count and declaring the
      size and hash of everything sent, stores the file and closes the
      transfer. */
  lemma StoreOnOpen(s: State, id: Id, name: string, k: nat, data: seq<byte>, payload: seq<byte>,
                    hash: string, digest: seq<byte> -> string)
    requires id !in s.sessions && id !in s.markers && hash != "" && (k == 0 ==> data == [])
    requires data + payload != [] ==> digest(data + payload) == hash
    ensures ProcessEntry(Open(s, id, name, k, data), id, k + 1, Store(|data + payload|, hash), payload, digest)
         == (State(s.sessions, s.markers, s.dirs[id := map[name := data + payload]]),
             Ok(SegmentResult(id, k + 1, Some(StoreLabel))))
  {
    StoreEntry(Open(s, id, name, k, data), id, k + 1, |data + payload|, hash, payload, digest);
    CompleteOnOpen(s, id, name, k, data, payload, hash, digest);
  }

  /** Completing an open transfer whose file holds everything sent. */
  lemma CompleteOnOpen(s: State, id: Id, name: string, k: nat, data: seq<byte>, payload: seq<byte>,
                       hash: string, digest: seq<byte> -> string)
    requires id !in s.sessions && id !in s.markers && hash != "" && (k == 0 ==> data == [])
    requires data + payload != [] ==> digest(data + payload) == hash
    ensures CompleteFile(Counted(Open(s, id, name, k, data), id), id, Store(|data + payload|, hash), payload, digest)
         == (State(s.sessions, s.markers, s.dirs[id := map[name := data + payload]]), Ok(StoreLabel))
  {
    var f: Folder := if k == 0 then map[] else map[name := data];
    assert Counted(Open(s, id, name, k, data), id)
        == State(s.sessions[id := Entry(name, k + 1, data)], s.markers + {id}, s.dirs[id := f]);
    FinishStores(s, id, name, k + 1, data, f, payload, hash, digest);
    assert s.sessions[id := Entry(name, k + 1, data + payload)] - {id} == s.sessions;
  }

  /** A store numbered one past the count is decided by the completion. */
  lemma StoreEntry(s: State, id: Id, n: int, size: int, hash: string, payload: seq<byte>,
                   digest: seq<byte> -> string)
    requires id in s.sessions && s.sessions[id].segmentsReceived + 1 == n
    ensures var (t, d) := CompleteFile(Counted(s, id), id, Store(size, hash), payload, digest);
            ProcessEntry(s, id, n, Store(size, hash), payload, digest)
              == (t, if d.Err? then Err(d.failure) else Ok(SegmentResult(id, n, Some(d.value))))
  {
  }

  /** A request that continues transfer `id` with segment `k + 1`. */
  lemma ContinueOpen(s: State, id: Id, name: string, k: nat, data: seq<byte>, m: Message, freshId: Id,
                     requested: RequestedResult, digest: seq<byte> -> string)
    requires k >= 1 && m.fileId == Some(id) && id != ""
    requires CheckRequest(m) == Ok(Checked(Some(k + 1), requested))
    ensures StoreSegment(Open(s, id, name, k, data), m, freshId, digest)
         == ProcessEntry(Open(s, id, name, k, data), id, k + 1, requested, m.payload, digest)
  {
  }

  /** After the first `k` segments of an upload that is not yet finished,
      the transfer holds exactly their concatenation, in its file and in
      its hash accumulator, counts `k` segments, and every answer so far
      reported the running count. */
  lemma {:induction false} UploadPrefix(s: State, id: Id, name: string, payloads: seq<seq<byte>>, hash: string,
                                        freshIds: seq<Id>, digest: seq<byte> -> string, k: nat)
    requires FreshTransfer(s, id, name) && hash != ""
    requires |freshIds| == |payloads| && 1 <= k < |payloads| && freshIds[0] == id
    ensures var (t, outs) := Run(s, Upload(id, name, payloads, hash)[..k], freshIds[..k], digest);
            t == Open(s, id, name, k, Concat(payloads[..k]))
            && forall i | 0 <= i < k :: outs[i] == Ok(SegmentResult(id, i + 1, None))
  {
    var ms := Upload(id, name, payloads, hash);
    var data := Concat(payloads[..k - 1]);
    var (t0, outs0) := Run(s, ms[..k - 1], freshIds[..k - 1], digest);
    assert t0 == (if k == 1 then s else Open(s, id, name, k - 1, data))
           && forall i | 0 <= i < k - 1 :: outs0[i] == Ok(SegmentResult(id, i + 1, None)) by {
      if k == 1 {
        assert ms[..0] == [] && freshIds[..0] == [];
      } else {
        UploadPrefix(s, id, name, payloads, hash, freshIds, digest, k - 1);
      }
    }
    assert StoreSegment(t0, ms[k - 1], freshIds[k - 1], digest)
           == (Open(s, id, name, k, data + payloads[k - 1]), Ok(SegmentResult(id, k, None))) by {
      CheckUploadMessage(id, name, payloads, hash, k);
      if k == 1 {
        assert data == [] by {
          assert payloads[..0] == [];
        }
        OpenFresh(s, id, name);
      } else {
        ContinueOpen(s, id, name, k - 1, data, ms[k - 1], freshIds[k - 1], NoResult, digest);
      }
      AppendToOpen(s, id, name, k - 1, data, payloads[k - 1], digest);
    }
    assert Concat(payloads[..k]) == data + payloads[k - 1] by {
      ConcatStep(payloads, k - 1);
    }
    var (t, outs) := Run(s, ms[..k], freshIds[..k], digest);
    assert (t, outs) == (Open(s, id, name, k, Concat(payloads[..k])), outs0 + [Ok(SegmentResult(id, k, None))]) by {
      assert ms[..k][..k - 1] == ms[..k - 1] && freshIds[..k][..k - 1] == freshIds[..k - 1];
      RunLast(s, ms[..k], freshIds[..k], digest);
    }
    forall i | 0 <= i < k
      ensures outs[i] == Ok(SegmentResult(id, i + 1, None))
    {
      if i < k - 1 {
        assert outs[i] == outs0[i];
      }
    }
  }

  /** The last request of a run starts from the state the others left. */
  lemma RunLast(s: State, messages: seq<Message>, freshIds: seq<Id>, digest: seq<byte> -> string)
    requires |freshIds| == |messages| > 0
    ensures var k := |messages| - 1;
            var (t, outs) := Run(s, messages[..k], freshIds[..k], digest);
            Run(s, messages, freshIds, digest)
              == (StoreSegment(t, messages[k], freshIds[k], digest).0,
                  outs + [StoreSegment(t, messages[k], freshIds[k], digest).1])
  {
  }

  /** A one-segment upload: its only request creates and stores the file. */
  lemma SingleRequest(s: State, id: Id, name: string, payloads: seq<seq<byte>>, hash: string,
                      digest: seq<byte> -> string)
    requires FreshTransfer(s, id, name) && |payloads| == 1
    requires hash != "" && (payloads[0] != [] ==> digest(payloads[0]) == hash)
    ensures StoreSegment(s, UploadMessage(id, name, payloads, hash, 1), id, digest)
         == (State(s.sessions, s.markers, s.dirs[id := map[name := payloads[0]]]),
             Ok(SegmentResult(id, 1, Some(StoreLabel))))
  {
    var m := UploadMessage(id, name, payloads, hash, 1);
    var requested := Store(|payloads[0]|, hash);
    assert CheckRequest(m) == Ok(Checked(Some(1), requested)) by {
      CheckUploadMessage(id, name, payloads, hash, 1);
      assert Concat(payloads) == [] + payloads[0] by {
        ConcatStep(payloads, 0);
        assert payloads[..1] == payloads && payloads[..0] == [];
      }
    }
    OpenFresh(s, id, name);
    assert [] + payloads[0] == payloads[0];
    StoreOnOpen(s, id, name, 0, [], payloads[0], hash, digest);
  }

  /** The request carrying segment N > 1, sent once the first N - 1
      segments are in, stores the file. */
  lemma LastRequest(s: State, id: Id, name: string, payloads: seq<seq<byte>>, hash: string,
                    freshId: Id, digest: seq<byte> -> string, data: seq<byte>)
    requires FreshTransfer(s, id, name) && |payloads| > 1 && data == Concat(payloads[..|payloads| - 1])
    requires hash != "" && (data + payloads[|payloads| - 1] != [] ==> digest(data + payloads[|payloads| - 1]) == hash)
    ensures StoreSegment(Open(s, id, name, |payloads| - 1, data), UploadMessage(id, name, payloads, hash, |payloads|),
                         freshId, digest)
         == (State(s.sessions, s.markers, s.dirs[id := map[name := data + payloads[|payloads| - 1]]]),
             Ok(SegmentResult(id, |payloads|, Some(StoreLabel))))
  {
    var n := |payloads|;
    var m := UploadMessage(id, name, payloads, hash, n);
    var requested := Store(|data + payloads[n - 1]|, hash);
    assert CheckRequest(m) == Ok(Checked(Some(n), requested)) by {
      CheckUploadMessage(id, name, payloads, hash, n);
      assert Concat(payloads) == data + payloads[n - 1] by {
        ConcatStep(payloads, n - 1);
        assert payloads[..n] == payloads;
      }
    }
    ContinueOpen(s, id, name, n - 1, data, m, freshId, requested, digest);
    StoreOnOpen(s, id, name, n - 1, data, payloads[n - 1], hash, digest);
  }

  /** The state and answers after all of an upload of `payloads` as
      `name` under id `id`, stored. */
  predicate Stored(s: State, id: Id, name: string, payloads: seq<seq<byte>>, t: State,
                   outs: seq<Outcome<SegmentResult>>)
    requires |outs| == |payloads| >= 1
  {
    var n := |payloads|;
    t == State(s.sessions, s.markers, s.dirs[id := map[name := Concat(payloads)]])
    && outs[n - 1] == Ok(SegmentResult(id, n, Some(StoreLabel)))
    && forall i | 0 <= i < n - 1 :: outs[i] == Ok(SegmentResult(id, i + 1, None))
  }

  lemma UploadStoresOne(s: State, id: Id, name: string, payloads: seq<seq<byte>>, hash: string,
                        freshIds: seq<Id>, digest: seq<byte> -> string)
    requires FreshTransfer(s, id, name)
    requires |freshIds| == |payloads| == 1 && freshIds[0] == id
    requires hash != "" && (Concat(payloads) != [] ==> digest(Concat(payloads)) == hash)
    ensures var (t, outs) := Run(s, Upload(id, name, payloads, hash), freshIds, digest);
            Stored(s, id, name, payloads, t, outs)
  {
    var ms := Upload(id, name, payloads, hash);
    assert ms[..1] == ms && freshIds[..1] == freshIds;
    assert Concat(payloads) == payloads[0] by {
      ConcatStep(payloads, 0);
      assert payloads[..1] == payloads && payloads[..0] == [];
    }
    assert Run(s, ms[..0], freshIds[..0], digest) == (s, []) by {
      assert ms[..0] == [] && freshIds[..0] == [];
    }
    SingleRequest(s, id, name, payloads, hash, digest);
    RunLast(s, ms, freshIds, digest);
  }

  lemma UploadStoresMany(s: State, id: Id, name: string, payloads: seq<seq<byte>>, hash: string,
                         freshIds: seq<Id>, digest: seq<byte> -> string)
    requires FreshTransfer(s, id, name)
    requires |freshIds| == |payloads| > 1 && freshIds[0] == id
    requires hash != "" && (Concat(payloads) != [] ==> digest(Concat(payloads)) == hash)
    ensures var (t, outs) := Run(s, Upload(id, name, payloads, hash), freshIds, digest);
            Stored(s, id, name, payloads, t, outs)
  {
    var n := |payloads|;
    var ms := Upload(id, name, payloads, hash);
    assert ms[..n] == ms && freshIds[..n] == freshIds;
    var data := Concat(payloads[..n - 1]);
    assert Concat(payloads) == data + payloads[n - 1] by {
      ConcatStep(payloads, n - 1);
      assert payloads[..n] == payloads;
    }
    var (p, outs) := Run(s, ms[..n - 1], freshIds[..n - 1], digest);
    assert p == Open(s, id, name, n - 1, data)
           && forall i | 0 <= i < n - 1 :: outs[i] == Ok(SegmentResult(id, i + 1, None)) by {
      UploadPrefix(s, id, name, payloads, hash, freshIds, digest, n - 1);
    }
    var last := (State(s.sessions, s.markers, s.dirs[id := map[name := Concat(payloads)]]),
                 Ok(SegmentResult(id, n, Some(StoreLabel))));
    assert StoreSegment(p, ms[n - 1], freshIds[n - 1], digest) == last by {
      LastRequest(s, id, name, payloads, hash, freshIds[n - 1], digest, data);
    }
    assert Run(s, ms, freshIds, digest) == (last.0, outs + [last.1]) by {
      RunLast(s, ms, freshIds, digest);
    }
    StoredAppend(s, id, name, payloads, outs);
  }

  /** The answers of all but the last segment, followed by the `store`
      answer, make a stored upload. */
  lemma StoredAppend(s: State, id: Id, name: string, payloads: seq<seq<byte>>, outs: seq<Outcome<SegmentResult>>)
    requires |outs| + 1 == |payloads|
    requires forall i | 0 <= i < |outs| :: outs[i] == Ok(SegmentResult(id, i + 1, None))
    ensures Stored(s, id, name, payloads, State(s.sessions, s.markers, s.dirs[id := map[name := Concat(payloads)]]),
                   outs + [Ok(SegmentResult(id, |payloads|, Some(StoreLabel)))])
  {
  }

  /** Sending the segments of a file in order 1..N, the last asking for
      store with the total size and a hash that the digest of the whole
      file matches (or any non-empty hash for an empty file), stores
      exactly the concatenation of the payloads: every answer is accepted,
      the last one with `store`, the transfer leaves the registry and its
      marker is gone, and nothing else on the server changed. */
  lemma UploadStores(s: State, id: Id, name: string, payloads: seq<seq<byte>>, hash: string,
                     freshIds: seq<Id>, digest: seq<byte> -> string)
    requires FreshTransfer(s, id, name)
    requires |freshIds| == |payloads| >= 1 && freshIds[0] == id
    requires hash != "" && (Concat(payloads) != [] ==> digest(Concat(payloads)) == hash)
    ensures var (t, outs) := Run(s, Upload(id, name, payloads, hash), freshIds, digest);
            var n := |payloads|;
            t == State(s.sessions, s.markers, s.dirs[id := map[name := Concat(payloads)]])
            && outs[n - 1] == Ok(SegmentResult(id, n, Some(StoreLabel)))
            && forall i | 0 <= i < n - 1 :: outs[i] == Ok(SegmentResult(id, i + 1, None))
  {
    if |payloads| == 1 {
      UploadStoresOne(s, id, name, payloads, hash, freshIds, digest);
    } else {
      UploadStoresMany(s, id, name, payloads, hash, freshIds, digest);
    }
  }
}
