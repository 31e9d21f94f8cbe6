/** A whole upload against the request callback: the requests a client
    sends for a file cut into segments, run one after another. */
module HandlerUpload {
  import opened Wire
  import opened Storage
  import StoreModel
  import opened HandlerModel

  /** The requests run in order from state `s`, each with the id the
      generator would give it, and the outcome of each. */
  function Run(s: State, messages: seq<Message>, freshIds: seq<Id>, digest: seq<byte> -> string)
    : (out: (State, seq<Outcome<map<string, Field>>>))
    requires |freshIds| == |messages|
    ensures |out.1| == |messages|
    ensures s.sessions.Keys <= out.0.sessions.Keys
    ensures forall i | 0 <= i < |messages| && CheckRequest(messages[i]).Err? ::
              out.1[i] == Err(CheckRequest(messages[i]).failure)
    ensures forall i | 0 <= i < |messages| && out.1[i].Ok? ::
              FileIdKey in out.1[i].value
              && out.1[i].value[FileIdKey] == Text(StoreModel.ChosenId(messages[i].fileId, freshIds[i]))
  {
    if messages == [] then (s, [])
    else
      var k := |messages| - 1;
      var (t, outs) := Run(s, messages[..k], freshIds[..k], digest);
      var (u, o) := OnRequest(t, messages[k], freshIds[k], digest);
      (u, outs + [o])
  }

  /** The last request of a run starts from the state the others left. */
  lemma RunLast(s: State, messages: seq<Message>, freshIds: seq<Id>, digest: seq<byte> -> string)
    requires |freshIds| == |messages| > 0
    ensures var k := |messages| - 1;
            var (t, outs) := Run(s, messages[..k], freshIds[..k], digest);
            Run(s, messages, freshIds, digest)
              == (OnRequest(t, messages[k], freshIds[k], digest).0,
                  outs + [OnRequest(t, messages[k], freshIds[k], digest).1])
  {
  }

  /** Segment `k` (from 1) of an upload of `payloads` as `name`: every
      segment names the file, segment 1 carries no id and the others carry
      the id the service returned; the last one asks for store with the
      total size and `hash`. */
  function UploadMessage(id: Id, name: string, payloads: seq<seq<byte>>, hash: string, k: nat): Message
    requires 1 <= k <= |payloads|
  {
    var last := k == |payloads|;
    Message(
      if k == 1 then None else Some(id),
      Some(name),
      Number(k),
      if last then Number(|Concat(payloads)|) else Absent,
      if last then Some(hash) else None,
      if last then Some(StoreLabel) else None,
      payloads[k - 1])
  }

  /** The requests of an upload: one per payload, numbered from 1, each
      naming the file, the first without an id and the others with it. */
  function Upload(id: Id, name: string, payloads: seq<seq<byte>>, hash: string): (ms: seq<Message>)
    ensures |ms| == |payloads|
    ensures forall i | 0 <= i < |ms| ::
              ms[i].segmentNumber == Number(i + 1) && ms[i].payload == payloads[i]
              && ms[i].fileId == (if i == 0 then None else Some(id)) && ms[i].name == Some(name)
  {
    seq(|payloads|, i requires 0 <= i < |payloads| => UploadMessage(id, name, payloads, hash, i + 1))
  }

  lemma CheckUploadMessage(id: Id, name: string, payloads: seq<seq<byte>>, hash: string, k: nat)
    requires id != "" && name != "" && hash != ""
    requires 1 <= k <= |payloads|
    ensures CheckRequest(UploadMessage(id, name, payloads, hash, k))
         == Ok(StoreModel.Checked(Some(k), if k == |payloads| then Store(|Concat(payloads)|, hash) else NoResult))
  {
  }

  /** A request with the next segment number for open transfer `id`
      appends its payload. */
  lemma AppendToOpen(s: State, id: Id, name: string, k: nat, data: seq<byte>, payload: seq<byte>,
                     digest: seq<byte> -> string)
    requires k == 0 ==> data == []
    ensures ProcessSegment(Open(s, id, name, k, data), id, Some(k + 1), NoResult, payload, digest)
         == (Open(s, id, name, k + 1, data + payload), Ok(Response(id, None, k + 1)))
  {
    var t := Open(s, id, name, k, data);
    var f := t.dirs[id];
    assert Counted(t, id) == State(s.sessions[id := Entry(name, k + 1, data)], s.markers + {id}, s.dirs[id := f]);
    WriteSingleFile(s, id, name, k + 1, data, f, s.markers + {id}, payload);
  }

  /** The last segment, declaring the size and hash of everything sent,
      stores the file; the entry stays registered with the final count. */
  lemma StoreOnOpen(s: State, id: Id, name: string, k: nat, data: seq<byte>, payload: seq<byte>,
                    hash: string, digest: seq<byte> -> string)
    requires id !in s.markers && hash != "" && (k == 0 ==> data == [])
    requires data + payload != [] ==> digest(data + payload) == hash
    ensures ProcessSegment(Open(s, id, name, k, data), id, Some(k + 1), Store(|data + payload|, hash), payload, digest)
         == (State(s.sessions[id := Entry(name, k + 1, data + payload)], s.markers,
                   s.dirs[id := map[name := data + payload]]),
             Ok(Response(id, Some(StoreLabel), k + 1)))
  {
    var t := Open(s, id, name, k, data);
    var f := t.dirs[id];
    assert Counted(t, id) == State(s.sessions[id := Entry(name, k + 1, data)], s.markers + {id}, s.dirs[id := f]);
    FinishStores(s, id, name, k + 1, data, f, payload, hash, digest);
  }

  /** The first request of an upload creates the transfer under the
      generated id. */
  lemma OpenFresh(s: State, m: Message, id: Id, name: string, digest: seq<byte> -> string)
    requires id !in s.dirs && m.fileId.None? && m.name == Some(name) && name != ""
    requires CheckRequest(m).Ok? && CheckRequest(m).value.segmentNumber == Some(1)
    ensures OnRequest(s, m, id, digest)
         == ProcessSegment(Open(s, id, name, 0, []), id, Some(1), CheckRequest(m).value.requested, m.payload, digest)
  {
  }

  /** A later request of an upload continues the open transfer. */
  lemma ContinueOpen(s: State, m: Message, id: Id, name: string, k: nat, data: seq<byte>, freshId: Id,
                     digest: seq<byte> -> string)
    requires m.fileId == Some(id) && id != "" && CheckRequest(m).Ok?
    ensures OnRequest(Open(s, id, name, k, data), m, freshId, digest)
         == ProcessSegment(Open(s, id, name, k, data), id, CheckRequest(m).value.segmentNumber,
                           CheckRequest(m).value.requested, m.payload, digest)
  {
  }

  /** Segment `k` of an upload that is not yet finished, sent after the
      first `k - 1`, appends its payload and counts it. */
  lemma NextSegment(s: State, id: Id, name: string, payloads: seq<seq<byte>>, hash: string,
                    freshId: Id, digest: seq<byte> -> string, k: nat, data: seq<byte>)
    requires id != "" && name != "" && hash != "" && id !in s.dirs
    requires 1 <= k < |payloads| && data == Concat(payloads[..k - 1])
    ensures OnRequest(if k == 1 then s else Open(s, id, name, k - 1, data),
                      UploadMessage(id, name, payloads, hash, k), if k == 1 then id else freshId, digest)
         == (Open(s, id, name, k, data + payloads[k - 1]), Ok(Response(id, None, k)))
  {
    var m := UploadMessage(id, name, payloads, hash, k);
    CheckUploadMessage(id, name, payloads, hash, k);
    if k == 1 {
      assert data == [] by {
        assert payloads[..0] == [];
      }
      OpenFresh(s, m, id, name, digest);
    } else {
      ContinueOpen(s, m, id, name, k - 1, data, freshId, digest);
    }
    AppendToOpen(s, id, name, k - 1, data, payloads[k - 1], digest);
  }

  /** Running the first `k` requests is running the first `k - 1` and
      then request `k` on the state they left. */
  lemma RunStep(s: State, messages: seq<Message>, freshIds: seq<Id>, digest: seq<byte> -> string, k: nat,
                t0: State, outs0: seq<Outcome<map<string, Field>>>)
    requires |freshIds| == |messages| && 1 <= k <= |messages|
    requires Run(s, messages[..k - 1], freshIds[..k - 1], digest) == (t0, outs0)
    ensures Run(s, messages[..k], freshIds[..k], digest)
         == (OnRequest(t0, messages[k - 1], freshIds[k - 1], digest).0,
             outs0 + [OnRequest(t0, messages[k - 1], freshIds[k - 1], digest).1])
  {
    assert messages[..k][..k - 1] == messages[..k - 1] && freshIds[..k][..k - 1] == freshIds[..k - 1];
    RunLast(s, messages[..k], freshIds[..k], digest);
  }

  /** Request `k` of an upload, on the state the first `k - 1` left. */
  lemma UploadStep(s: State, id: Id, name: string, payloads: seq<seq<byte>>, hash: string,
                   freshIds: seq<Id>, digest: seq<byte> -> string, k: nat)
    requires id != "" && name != "" && hash != "" && id !in s.dirs
    requires |freshIds| == |payloads| && 1 <= k < |payloads| && freshIds[0] == id
    ensures OnRequest(if k == 1 then s else Open(s, id, name, k - 1, Concat(payloads[..k - 1])),
                      Upload(id, name, payloads, hash)[k - 1], freshIds[k - 1], digest)
         == (Open(s, id, name, k, Concat(payloads[..k])), Ok(Response(id, None, k)))
  {
    ConcatStep(payloads, k - 1);
    NextSegment(s, id, name, payloads, hash, freshIds[k - 1], digest, k, Concat(payloads[..k - 1]));
  }

  /** After the first `k` segments of an upload that is not yet finished,
      the transfer holds exactly their concatenation, in its file and in
      its hash accumulator, counts `k` segments, and every answer so far
      reported the running count without a result. */
  lemma {:induction false} UploadPrefix(s: State, id: Id, name: string, payloads: seq<seq<byte>>, hash: string,
                                        freshIds: seq<Id>, digest: seq<byte> -> string, k: nat)
    requires id != "" && name != "" && hash != "" && id !in s.dirs
    requires |freshIds| == |payloads| && 1 <= k < |payloads| && freshIds[0] == id
    ensures var (t, outs) := Run(s, Upload(id, name, payloads, hash)[..k], freshIds[..k], digest);
            t == Open(s, id, name, k, Concat(payloads[..k]))
            && forall i | 0 <= i < k :: outs[i] == Ok(Response(id, None, i + 1))
  {
    var ms := Upload(id, name, payloads, hash);
    var t0 := if k == 1 then s else Open(s, id, name, k - 1, Concat(payloads[..k - 1]));
    var outs0 := Run(s, ms[..k - 1], freshIds[..k - 1], digest).1;
    assert Run(s, ms[..k - 1], freshIds[..k - 1], digest) == (t0, outs0)
           && forall i | 0 <= i < k - 1 :: outs0[i] == Ok(Response(id, None, i + 1)) by {
      if k == 1 {
        assert ms[..0] == [] && freshIds[..0] == [];
      } else {
        UploadPrefix(s, id, name, payloads, hash, freshIds, digest, k - 1);
      }
    }
    UploadStep(s, id, name, payloads, hash, freshIds, digest, k);
    RunStep(s, ms, freshIds, digest, k, t0, outs0);
    var outs := Run(s, ms[..k], freshIds[..k], digest).1;
    forall i | 0 <= i < k
      ensures outs[i] == Ok(Response(id, None, i + 1))
    {
      if i < k - 1 {
        assert outs[i] == outs0[i];
      }
    }
  }

  /** The request carrying the last segment of an upload stores the file. */
  lemma LastRequest(s: State, id: Id, name: string, payloads: seq<seq<byte>>, hash: string,
                    freshId: Id, digest: seq<byte> -> string, data: seq<byte>)
    requires id != "" && name != "" && hash != "" && id !in s.dirs && id !in s.markers
    requires |payloads| >= 1 && data == Concat(payloads[..|payloads| - 1])
    requires data + payloads[|payloads| - 1] != [] ==> digest(data + payloads[|payloads| - 1]) == hash
    ensures var n := |payloads|;
            OnRequest(if n == 1 then s else Open(s, id, name, n - 1, data),
                      UploadMessage(id, name, payloads, hash, n), if n == 1 then id else freshId, digest)
              == (State(s.sessions[id := Entry(name, n, data + payloads[n - 1])], s.markers,
                        s.dirs[id := map[name := data + payloads[n - 1]]]),
                  Ok(Response(id, Some(StoreLabel), n)))
  {
    var n := |payloads|;
    var m := UploadMessage(id, name, payloads, hash, n);
    assert CheckRequest(m) == Ok(StoreModel.Checked(Some(n), Store(|data + payloads[n - 1]|, hash))) by {
      CheckUploadMessage(id, name, payloads, hash, n);
      assert Concat(payloads) == data + payloads[n - 1] by {
        ConcatStep(payloads, n - 1);
        assert payloads[..n] == payloads;
      }
    }
    if n == 1 {
      assert data == [] by {
        assert payloads[..0] == [];
      }
      OpenFresh(s, m, id, name, digest);
    } else {
      ContinueOpen(s, m, id, name, n - 1, data, freshId, digest);
    }
    StoreOnOpen(s, id, name, n - 1, data, payloads[n - 1], hash, digest);
  }

  /** The state and answers after all of an upload of `payloads` as
      `name` under id `id`, stored. */
  predicate Stored(s: State, id: Id, name: string, payloads: seq<seq<byte>>, t: State,
                   outs: seq<Outcome<map<string, Field>>>)
    requires |outs| == |payloads| >= 1
  {
    var n := |payloads|;
    t == State(s.sessions[id := Entry(name, n, Concat(payloads))], s.markers,
               s.dirs[id := map[name := Concat(payloads)]])
    && outs[n - 1] == Ok(Response(id, Some(StoreLabel), n))
    && forall i | 0 <= i < n - 1 :: outs[i] == Ok(Response(id, None, i + 1))
  }

  lemma UploadStoresOne(s: State, id: Id, name: string, payloads: seq<seq<byte>>, hash: string,
                        freshIds: seq<Id>, digest: seq<byte> -> string)
    requires id != "" && name != "" && id !in s.dirs && id !in s.markers
    requires |freshIds| == |payloads| == 1 && freshIds[0] == id
    requires hash != "" && (Concat(payloads) != [] ==> digest(Concat(payloads)) == hash)
    ensures var (t, outs) := Run(s, Upload(id, name, payloads, hash), freshIds, digest);
            Stored(s, id, name, payloads, t, outs)
  {
    var ms := Upload(id, name, payloads, hash);
    assert ms[..1] == ms && freshIds[..1] == freshIds;
    var data := Concat(payloads[..0]);
    assert data == [] by {
      assert payloads[..0] == [];
    }
    assert Concat(payloads) == data + payloads[0] by {
      ConcatStep(payloads, 0);
      assert payloads[..1] == payloads;
    }
    assert Run(s, ms[..0], freshIds[..0], digest) == (s, []) by {
      assert ms[..0] == [] && freshIds[..0] == [];
    }
    LastRequest(s, id, name, payloads, hash, id, digest, data);
    RunLast(s, ms, freshIds, digest);
  }

  lemma UploadStoresMany(s: State, id: Id, name: string, payloads: seq<seq<byte>>, hash: string,
                         freshIds: seq<Id>, digest: seq<byte> -> string)
    requires id != "" && name != "" && id !in s.dirs && id !in s.markers
    requires |freshIds| == |payloads| > 1 && freshIds[0] == id
    requires hash != "" && (Concat(payloads) != [] ==> digest(Concat(payloads)) == hash)
    ensures var (t, outs) := Run(s, Upload(id, name, payloads, hash), freshIds, digest);
            Stored(s, id, name, payloads, t, outs)
  {
    var n := |payloads|;
    var ms := Upload(id, name, payloads, hash);
    assert ms[..n] == ms && freshIds[..n] == freshIds;
    var data := Concat(payloads[..n - 1]);
    assert Concat(payloads) == data + payloads[n - 1] by {
      ConcatStep(payloads, n - 1);
      assert payloads[..n] == payloads;
    }
    var (p, outs) := Run(s, ms[..n - 1], freshIds[..n - 1], digest);
    assert p == Open(s, id, name, n - 1, data)
           && forall i | 0 <= i < n - 1 :: outs[i] == Ok(Response(id, None, i + 1)) by {
      UploadPrefix(s, id, name, payloads, hash, freshIds, digest, n - 1);
    }
    assert OnRequest(p, ms[n - 1], freshIds[n - 1], digest)
           == (State(s.sessions[id := Entry(name, n, Concat(payloads))], s.markers,
                     s.dirs[id := map[name := Concat(payloads)]]),
               Ok(Response(id, Some(StoreLabel), n))) by {
      LastRequest(s, id, name, payloads, hash, freshIds[n - 1], digest, data);
    }
    RunLast(s, ms, freshIds, digest);
  }

  /** Sending the segments of a file in order 1..N, each naming the file,
      the last asking for store with the total size and a hash that the
      digest of the whole file matches (or any non-empty hash for an empty
      file), stores exactly the concatenation of the payloads: every answer
      is accepted, the last one with `store`, the marker is gone, and the
      transfer stays registered with count N. */
  lemma UploadStores(s: State, id: Id, name: string, payloads: seq<seq<byte>>, hash: string,
                     freshIds: seq<Id>, digest: seq<byte> -> string)
    requires id != "" && name != "" && id !in s.dirs && id !in s.markers
    requires |freshIds| == |payloads| >= 1 && freshIds[0] == id
    requires hash != "" && (Concat(payloads) != [] ==> digest(Concat(payloads)) == hash)
    ensures var (t, outs) := Run(s, Upload(id, name, payloads, hash), freshIds, digest);
            var n := |payloads|;
            t == State(s.sessions[id := Entry(name, n, Concat(payloads))], s.markers,
                       s.dirs[id := map[name := Concat(payloads)]])
            && outs[n - 1] == Ok(Response(id, Some(StoreLabel), n))
            && forall i | 0 <= i < n - 1 :: outs[i] == Ok(Response(id, None, i + 1))
  {
    if |payloads| == 1 {
      UploadStoresOne(s, id, name, payloads, hash, freshIds, digest);
    } else {
      UploadStoresMany(s, id, name, payloads, hash, freshIds, digest);
    }
  }
}
