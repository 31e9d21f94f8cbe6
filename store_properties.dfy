/** Properties of the file store manager's protocol, stated over
    StoreModel: what each kind of request does to the registry, the
    markers and the storage directory, the invariant every request keeps,
    and the outcome of a whole upload. */
module StoreProperties {
  import opened Wire
  import opened Storage
  import opened StoreModel

  // ---- The invariant ---------------------------------------------------

  lemma WriteKeepsInvariant(s: State, base: map<Id, seq<byte>>, id: Id, segment: seq<byte>)
    requires Invariant(s, base) && id in s.sessions
    ensures Invariant(WriteSegment(s, id, segment).0, base)
  {
    var t := WriteSegment(s, id, segment).0;
    if id in s.dirs {
      forall x | x in t.sessions && x in t.dirs
        ensures FileOf(t, x) == base[x] + t.sessions[x].hashed
      {
        if x != id {
          assert t.sessions[x] == s.sessions[x] && t.dirs[x] == s.dirs[x];
        }
      }
    }
  }

  lemma CompleteKeepsInvariant(s: State, base: map<Id, seq<byte>>, id: Id, requested: RequestedResult,
                               lastSegment: seq<byte>, digest: seq<byte> -> string)
    requires Invariant(s, base) && id in s.sessions && !requested.NoResult?
    ensures Invariant(CompleteFile(s, id, requested, lastSegment, digest).0, base)
  {
    var s1 := s.(markers := s.markers - {id});
    if requested.Store? {
      WriteKeepsInvariant(s, base, id, lastSegment);
      var t := WriteSegment(s, id, lastSegment).0;
      assert WriteSegment(s1, id, lastSegment).0 == t.(markers := t.markers - {id});
    }
    var t := CompleteFile(s, id, requested, lastSegment, digest).0;
    forall x | x in t.sessions && x in t.dirs && x != id
      ensures FileOf(t, x) == base[x] + t.sessions[x].hashed
    {
      assert t.sessions[x] == s.sessions[x] && t.dirs[x] == s.dirs[x];
    }
  }

  lemma GetFileEntryKeepsInvariant(s: State, base: map<Id, seq<byte>>, m: Message, segmentNumber: Option<int>,
                                   freshId: Id)
    requires Invariant(s, NewBaseline(s, base, m, freshId))
    ensures Invariant(GetFileEntry(s, m.fileId, m.name, segmentNumber, freshId).0, NewBaseline(s, base, m, freshId))
  {
    var base' := NewBaseline(s, base, m, freshId);
    var t := GetFileEntry(s, m.fileId, m.name, segmentNumber, freshId).0;
    var id := ChosenId(m.fileId, freshId);
    forall x | x in t.sessions && x in t.dirs
      ensures FileOf(t, x) == base'[x] + t.sessions[x].hashed
    {
      if x != id || t == s {
        assert t.sessions[x] == s.sessions[x] && t.dirs[x] == s.dirs[x];
      }
    }
  }

  /** Every request keeps the invariant, the new transfer (if any) taking
      its file's prior content as its base. */
  lemma StoreSegmentKeepsInvariant(s: State, base: map<Id, seq<byte>>, m: Message, freshId: Id,
                                   digest: seq<byte> -> string)
    requires Invariant(s, base)
    ensures Invariant(StoreSegment(s, m, freshId, digest).0, NewBaseline(s, base, m, freshId))
  {
    var base' := NewBaseline(s, base, m, freshId);
    assert Invariant(s, base');
    match CheckRequest(m)
    case Err(_) =>
    case Ok(c) =>
      GetFileEntryKeepsInvariant(s, base, m, c.segmentNumber, freshId);
      var (s1, e) := GetFileEntry(s, m.fileId, m.name, c.segmentNumber, freshId);
      if e.Ok? {
        ProcessEntryKeepsInvariant(s1, base', e.value, c.segmentNumber.value, c.requested, m.payload, digest);
      }
  }

  lemma ProcessEntryKeepsInvariant(s: State, base: map<Id, seq<byte>>, id: Id, segmentNumber: int,
                                   requested: RequestedResult, payload: seq<byte>, digest: seq<byte> -> string)
    requires Invariant(s, base) && id in s.sessions
    ensures Invariant(ProcessEntry(s, id, segmentNumber, requested, payload, digest).0, base)
  {
    if requested.Cancel? || s.sessions[id].segmentsReceived + 1 == segmentNumber {
      var s2 := if requested.Cancel? then s else Counted(s, id);
      assert Invariant(s2, base);
      if requested.NoResult? {
        WriteKeepsInvariant(s2, base, id, payload);
      } else {
        CompleteKeepsInvariant(s2, base, id, requested, payload, digest);
      }
    }
  }

  /** Right after the startup sweep the registry is empty and no marker is
      left, so the invariant holds from the first request on. */
  lemma SweepEstablishesInvariant(leftMarkers: set<Id>, leftDirs: map<Id, Folder>)
    ensures var t := Swept(State(map[], leftMarkers, leftDirs));
            Invariant(t, map[]) && t.markers == {}
            && forall id | id in leftMarkers :: id !in t.dirs
  {
  }

  // ---- One request -----------------------------------------------------

  /** A request refused by the checks before `_get_file_entry` changes
      nothing: no entry, marker or directory. */
  lemma CheckFailureChangesNothing(s: State, m: Message, freshId: Id, digest: seq<byte> -> string)
    requires CheckRequest(m).Err?
    ensures StoreSegment(s, m, freshId, digest) == (s, Err(CheckRequest(m).failure))
  {
  }

  /** A segment number above 1 for an id that is not registered is refused
      and changes nothing. */
  lemma UnknownIdChangesNothing(s: State, m: Message, freshId: Id, digest: seq<byte> -> string)
    requires CheckRequest(m).Ok?
    requires CheckRequest(m).value.segmentNumber.Some? && CheckRequest(m).value.segmentNumber.value > 1
    requires m.fileId.Some? && m.fileId.value !in s.sessions
    ensures StoreSegment(s, m, freshId, digest) == (s, Err(UnknownFileId(m.fileId.value)))
  {
  }

  /** For a registered transfer, a request other than cancel is accepted
      only with the next consecutive segment number, and then the count
      rises by exactly one; any other number is refused with the state
      untouched. Replays and gaps are both refused. */
  lemma SequencingRule(s: State, m: Message, freshId: Id, digest: seq<byte> -> string)
    requires CheckRequest(m).Ok? && !CheckRequest(m).value.requested.Cancel?
    requires CheckRequest(m).value.segmentNumber.Some? && CheckRequest(m).value.segmentNumber.value > 1
    requires m.fileId.Some? && m.fileId.value in s.sessions
    ensures var id, n := m.fileId.value, CheckRequest(m).value.segmentNumber.value;
            var received := s.sessions[id].segmentsReceived;
            var (t, r) := StoreSegment(s, m, freshId, digest);
            (n != received + 1 ==> (t, r) == (s, Err(UnexpectedSegment(received + 1, Some(n)))))
            && (n == received + 1 ==>
                  (r.Ok? ==> r.value.segmentsReceived == received + 1)
                  && (id in t.sessions ==> t.sessions[id].segmentsReceived == received + 1))
  {
  }

  /** An ordinary segment for an active transfer appends exactly its
      payload to the file and to the hash accumulator, counts one more
      segment, leaves everything else alone, and answers without a
      `result` field. An empty payload appends nothing but still counts. */
  lemma OrdinarySegment(s: State, m: Message, freshId: Id, digest: seq<byte> -> string)
    requires CheckRequest(m).Ok? && CheckRequest(m).value.requested.NoResult?
    requires CheckRequest(m).value.segmentNumber.Some? && CheckRequest(m).value.segmentNumber.value > 1
    requires m.fileId.Some? && m.fileId.value in s.sessions && m.fileId.value in s.dirs
    requires CheckRequest(m).value.segmentNumber.value == s.sessions[m.fileId.value].segmentsReceived + 1
    ensures var id, n := m.fileId.value, CheckRequest(m).value.segmentNumber.value;
            var e := s.sessions[id];
            var (t, r) := StoreSegment(s, m, freshId, digest);
            r == Ok(SegmentResult(id, n, None)) && ResultKey !in ToDict(r.value)
            && id in t.sessions && id in t.dirs
            && t.sessions[id] == Entry(e.name, n, e.hashed + m.payload)
            && FileOf(t, id) == FileOf(s, id) + m.payload
            && t.markers == s.markers && OnlyTouches(s, t, id)
  {
  }

  /** A store request with the next segment number for an active
      transfer removes the marker first. It succeeds exactly when the file
      (with the last payload) has the declared size and is either empty or
      hashes to the declared hash; then the entry leaves the registry and
      the file stays. On a mismatch the directory is deleted but the entry,
      already counted, stays registered. */
  lemma StoreFinalisation(s: State, m: Message, freshId: Id, digest: seq<byte> -> string)
    requires CheckRequest(m).Ok? && CheckRequest(m).value.requested.Store?
    requires CheckRequest(m).value.segmentNumber.Some? && CheckRequest(m).value.segmentNumber.value > 1
    requires m.fileId.Some? && m.fileId.value in s.sessions && m.fileId.value in s.dirs
    requires CheckRequest(m).value.segmentNumber.value == s.sessions[m.fileId.value].segmentsReceived + 1
    ensures var id, n, req := m.fileId.value, CheckRequest(m).value.segmentNumber.value, CheckRequest(m).value.requested;
            var (t, r) := StoreSegment(s, m, freshId, digest);
            id !in t.markers && t.markers == s.markers - {id} && OnlyTouches(s, t, id)
            && (r.Ok? <==> StoreAccepted(s, id, req.size, req.hash, m.payload, digest))
            && (r.Ok? ==>
                  r.value == SegmentResult(id, n, Some(StoreLabel))
                  && id !in t.sessions && id in t.dirs
                  && Content(t.dirs[id], s.sessions[id].name) == FileOf(s, id) + m.payload)
            && (r.Err? ==>
                  r.failure == IntegrityMismatch(id) && id !in t.dirs
                  && id in t.sessions && t.sessions[id].segmentsReceived == n)
  {
  }

  /** The integrity guarantee the invariant exists for: when a transfer
      whose file was empty at creation is stored successfully, the stored
      file itself has the declared size and is empty or hashes to the
      declared hash. */
  lemma StoredFileIntact(s: State, base: map<Id, seq<byte>>, m: Message, freshId: Id, digest: seq<byte> -> string)
    requires Invariant(s, base)
    requires CheckRequest(m).Ok? && CheckRequest(m).value.requested.Store?
    requires CheckRequest(m).value.segmentNumber.Some? && CheckRequest(m).value.segmentNumber.value > 1
    requires m.fileId.Some? && m.fileId.value in s.sessions && m.fileId.value in s.dirs
    requires CheckRequest(m).value.segmentNumber.value == s.sessions[m.fileId.value].segmentsReceived + 1
    requires m.fileId.value in base && base[m.fileId.value] == []
    ensures var id, req := m.fileId.value, CheckRequest(m).value.requested;
            var (t, r) := StoreSegment(s, m, freshId, digest);
            r.Ok? ==>
              id in t.dirs
              && var stored := Content(t.dirs[id], s.sessions[id].name);
              |stored| == req.size && (stored == [] || digest(stored) == req.hash)
  {
    var id := m.fileId.value;
    StoreFinalisation(s, m, freshId, digest);
    assert FileOf(s, id) == s.sessions[id].hashed;
  }

  /** The folder a transfer created under `id` starts with: the existing
      directory of that name, or a new empty one. */
  function Before(s: State, id: Id): Folder
  {
    if id in s.dirs then s.dirs[id] else map[]
  }

  /** `s` right after the creation branch of `_get_file_entry` registered
      `id` for file `name`. */
  function Fresh(s: State, id: Id, name: string): State
  {
    State(s.sessions[id := Entry(name, 0, [])], s.markers + {id}, s.dirs[id := Before(s, id)])
  }

  lemma FirstCreates(s: State, m: Message, freshId: Id, digest: seq<byte> -> string)
    requires CheckRequest(m).Ok? && CheckRequest(m).value.segmentNumber == Some(1)
    requires ChosenId(m.fileId, freshId) !in s.sessions && ChosenId(m.fileId, freshId) !in s.markers
    ensures m.name.Some?
    ensures var id := ChosenId(m.fileId, freshId);
            StoreSegment(s, m, freshId, digest)
              == ProcessEntry(Fresh(s, id, m.name.value), id, 1, CheckRequest(m).value.requested, m.payload, digest)
  {
    var id := ChosenId(m.fileId, freshId);
    if id in s.dirs {
      assert s.dirs[id := Before(s, id)] == s.dirs;
    }
  }

  lemma FreshCancel(s: State, id: Id, name: string, payload: seq<byte>, digest: seq<byte> -> string)
    requires id !in s.sessions && id !in s.markers
    ensures ProcessEntry(Fresh(s, id, name), id, 1, Cancel, payload, digest)
         == (State(s.sessions, s.markers, s.dirs - {id}), Ok(SegmentResult(id, 0, Some(CancelLabel))))
  {
    assert (s.markers + {id}) - {id} == s.markers;
    assert s.sessions[id := Entry(name, 0, [])] - {id} == s.sessions;
    assert s.dirs[id := Before(s, id)] - {id} == s.dirs - {id};
  }

  lemma FreshWrite(s: State, id: Id, name: string, payload: seq<byte>)
    requires id !in s.sessions
    ensures WriteSegment(State(s.sessions[id := Entry(name, 1, [])], s.markers, s.dirs[id := Before(s, id)]), id, payload)
         == (State(s.sessions[id := Entry(name, 1, payload)], s.markers,
                   s.dirs[id := Before(s, id)[name := Content(Before(s, id), name) + payload]]), Ok(()))
  {
    var t := State(s.sessions[id := Entry(name, 1, [])], s.markers, s.dirs[id := Before(s, id)]);
    var f := Before(s, id)[name := Content(Before(s, id), name) + payload];
    assert t.dirs[id := f] == s.dirs[id := f];
    if payload == [] {
      assert t.sessions[id := Entry(name, 1, [])] == s.sessions[id := Entry(name, 1, payload)];
    } else {
      assert [] + payload == payload;
      assert t.sessions[id := Entry(name, 1, payload)] == s.sessions[id := Entry(name, 1, payload)];
    }
  }

  lemma FreshStore(s: State, id: Id, name: string, size: int, hash: string, payload: seq<byte>,
                   digest: seq<byte> -> string)
    requires id !in s.sessions && id !in s.markers
    ensures var file := Content(Before(s, id), name) + payload;
            var (t, r) := ProcessEntry(Fresh(s, id, name), id, 1, Store(size, hash), payload, digest);
            (r.Ok? <==> |file| == size && (|file| == 0 || digest(payload) == hash))
            && (r.Ok? ==>
                  (t, r) == (State(s.sessions, s.markers, s.dirs[id := Before(s, id)[name := file]]),
                             Ok(SegmentResult(id, 1, Some(StoreLabel)))))
            && (r.Err? ==>
                  (t, r) == (State(s.sessions[id := Entry(name, 1, payload)], s.markers, s.dirs - {id}),
                             Err(IntegrityMismatch(id))))
  {
    var s2 := Counted(Fresh(s, id, name), id);
    assert s2.(markers := s2.markers - {id})
        == State(s.sessions[id := Entry(name, 1, [])], s.markers, s.dirs[id := Before(s, id)]) by {
      assert (s.markers + {id}) - {id} == s.markers;
    }
    FreshWrite(s, id, name, payload);
    assert s.sessions[id := Entry(name, 1, payload)] - {id} == s.sessions;
    var file := Content(Before(s, id), name) + payload;
    assert s.dirs[id := Before(s, id)[name := file]] - {id} == s.dirs - {id};
  }

  /** Segment 1 may itself ask for store or cancel. The transfer is
      created under the supplied or generated id, reusing a directory of
      that name if one exists, and is completed at once. Cancel, and a
      store that fails the integrity check, delete that whole directory,
      including any file stored there before; a successful store leaves
      the other files of a reused directory in place. Either way the
      marker is gone again, and a failed store leaves the entry stranded
      in the registry. */
  lemma FirstSegmentCompletes(s: State, m: Message, freshId: Id, digest: seq<byte> -> string)
    requires CheckRequest(m).Ok? && CheckRequest(m).value.segmentNumber == Some(1)
    requires !CheckRequest(m).value.requested.NoResult?
    requires ChosenId(m.fileId, freshId) !in s.sessions && ChosenId(m.fileId, freshId) !in s.markers
    ensures m.name.Some?
    ensures var id, req, name := ChosenId(m.fileId, freshId), CheckRequest(m).value.requested, m.name.value;
            var before := if id in s.dirs then s.dirs[id] else map[];
            var file := Content(before, name) + m.payload;
            var (t, r) := StoreSegment(s, m, freshId, digest);
            t.markers == s.markers
            && (req.Cancel? ==>
                  (t, r) == (State(s.sessions, s.markers, s.dirs - {id}),
                             Ok(SegmentResult(id, 0, Some(CancelLabel)))))
            && (req.Store? ==>
                  (r.Ok? <==> |file| == req.size && (|file| == 0 || digest(m.payload) == req.hash)))
            && (req.Store? && r.Ok? ==>
                  (t, r) == (State(s.sessions, s.markers, s.dirs[id := before[name := file]]),
                             Ok(SegmentResult(id, 1, Some(StoreLabel)))))
            && (req.Store? && r.Err? ==>
                  (t, r) == (State(s.sessions[id := Entry(name, 1, m.payload)], s.markers, s.dirs - {id}),
                             Err(IntegrityMismatch(id))))
  {
    var id, req := ChosenId(m.fileId, freshId), CheckRequest(m).value.requested;
    FirstCreates(s, m, freshId, digest);
    if req.Cancel? {
      FreshCancel(s, id, m.name.value, m.payload, digest);
    } else {
      FreshStore(s, id, m.name.value, req.size, req.hash, m.payload, digest);
    }
  }

  /** A store whose file ends up empty with declared size 0 is accepted
      whatever hash was declared: the comparison is skipped. */
  lemma EmptyFileSkipsHash(s: State, id: Id, hash: string, digest: seq<byte> -> string)
    requires id in s.sessions && id in s.dirs && FileOf(s, id) == []
    ensures StoreAccepted(s, id, 0, hash, [], digest)
  {
  }

  /** Cancel for a registered transfer skips the sequencing check and does
      not write the payload: it removes the directory, the marker and the
      entry and answers `cancel` with the count unchanged. */
  lemma CancelTransfer(s: State, m: Message, freshId: Id, digest: seq<byte> -> string)
    requires CheckRequest(m).Ok? && CheckRequest(m).value.requested.Cancel?
    requires CheckRequest(m).value.segmentNumber.Some? && CheckRequest(m).value.segmentNumber.value > 1
    requires m.fileId.Some? && m.fileId.value in s.sessions && m.fileId.value in s.dirs
    ensures var id := m.fileId.value;
            var (t, r) := StoreSegment(s, m, freshId, digest);
            r == Ok(SegmentResult(id, s.sessions[id].segmentsReceived, Some(CancelLabel)))
            && t == State(s.sessions - {id}, s.markers - {id}, s.dirs - {id})
  {
    var id := m.fileId.value;
    var t := StoreSegment(s, m, freshId, digest).0;
    assert t.sessions == s.sessions - {id};
    assert t.dirs == s.dirs - {id};
  }

  /** After a cancel, a later segment for the same id is refused as
      unknown. */
  lemma CancelThenUnknown(s: State, cancel: Message, next: Message, freshId: Id, freshId': Id,
                          digest: seq<byte> -> string)
    requires CheckRequest(cancel).Ok? && CheckRequest(cancel).value.requested.Cancel?
    requires CheckRequest(cancel).value.segmentNumber.Some? && CheckRequest(cancel).value.segmentNumber.value > 1
    requires cancel.fileId.Some? && cancel.fileId.value in s.sessions && cancel.fileId.value in s.dirs
    requires CheckRequest(next).Ok?
    requires CheckRequest(next).value.segmentNumber.Some? && CheckRequest(next).value.segmentNumber.value > 1
    requires next.fileId == cancel.fileId
    ensures var t := StoreSegment(s, cancel, freshId, digest).0;
            StoreSegment(t, next, freshId', digest) == (t, Err(UnknownFileId(cancel.fileId.value)))
  {
    CancelTransfer(s, cancel, freshId, digest);
  }

  /** Resending a segment that was just accepted is refused, not counted
      twice and not written twice. */
  lemma ReplayRejected(s: State, m: Message, freshId: Id, freshId': Id, digest: seq<byte> -> string)
    requires CheckRequest(m).Ok? && CheckRequest(m).value.requested.NoResult?
    requires CheckRequest(m).value.segmentNumber.Some? && CheckRequest(m).value.segmentNumber.value > 1
    requires m.fileId.Some? && m.fileId.value in s.sessions && m.fileId.value in s.dirs
    requires CheckRequest(m).value.segmentNumber.value == s.sessions[m.fileId.value].segmentsReceived + 1
    ensures var n := CheckRequest(m).value.segmentNumber.value;
            var t := StoreSegment(s, m, freshId, digest).0;
            StoreSegment(t, m, freshId', digest) == (t, Err(UnexpectedSegment(n + 1, Some(n))))
  {
    OrdinarySegment(s, m, freshId, digest);
  }

  /** Segment 1 may carry its own `file_id`: when that id is neither
      registered nor marked, the transfer is created under it instead of a
      generated one, and an existing directory of that name is reused, so
      the payload lands after whatever the file already held. */
  lemma SuppliedIdAccepted(s: State, m: Message, freshId: Id, digest: seq<byte> -> string)
    requires CheckRequest(m) == Ok(Checked(Some(1), NoResult))
    requires Truthy(m.fileId) && m.fileId.value !in s.sessions && m.fileId.value !in s.markers
    ensures var id := m.fileId.value;
            var (t, r) := StoreSegment(s, m, freshId, digest);
            var before := if id in s.dirs then Content(s.dirs[id], m.name.value) else [];
            r == Ok(SegmentResult(id, 1, None))
            && id in t.sessions && id in t.markers && id in t.dirs
            && t.sessions[id] == Entry(m.name.value, 1, m.payload)
            && FileOf(t, id) == before + m.payload
  {
  }

  /** A segment number that is neither 1 nor above 1 (zero or negative)
      takes the creation branch: marker and directory are made, and the
      entry too when a name is given, before the sequencing check refuses
      the request; nothing is rolled back. */
  lemma NonPositiveSegmentLeavesTransfer(s: State, m: Message, freshId: Id, digest: seq<byte> -> string)
    requires CheckRequest(m).Ok? && !CheckRequest(m).value.requested.Cancel?
    requires CheckRequest(m).value.segmentNumber.Some? && CheckRequest(m).value.segmentNumber.value <= 0
    requires m.fileId.Some? && m.fileId.value !in s.sessions && m.fileId.value !in s.markers
    ensures var id, n := m.fileId.value, CheckRequest(m).value.segmentNumber.value;
            var (t, r) := StoreSegment(s, m, freshId, digest);
            id in t.markers && id in t.dirs
            && (m.name.Some? ==>
                  r == Err(UnexpectedSegment(1, Some(n)))
                  && id in t.sessions && t.sessions[id] == Entry(m.name.value, 0, []))
            && (m.name.None? ==> r == Err(NameNotText) && id !in t.sessions)
  {
  }

  /** A transfer left registered with no segment counted (by a request
      numbered 0 or below) can never go on: it expects segment 1, but any
      number up to 1 takes the creation branch and is refused because the
      id is registered, and any number above 1 fails sequencing. Only a
      cancel numbered above 1 can remove it. */
  lemma ZeroCountTransferStuck(s: State, m: Message, freshId: Id, digest: seq<byte> -> string)
    requires CheckRequest(m).Ok? && !CheckRequest(m).value.requested.Cancel?
    requires Truthy(m.fileId) && m.fileId.value in s.sessions
    requires s.sessions[m.fileId.value].segmentsReceived == 0
    ensures var id, n := m.fileId.value, CheckRequest(m).value.segmentNumber;
            var (t, r) := StoreSegment(s, m, freshId, digest);
            t == s && r.Err?
            && (n.Some? && n.value <= 1 ==> r == Err(IdInUse(id)))
            && (n.Some? && n.value > 1 ==> r == Err(UnexpectedSegment(1, n)))
  {
  }

  /** A transfer whose store failed the integrity check stays registered
      with neither marker nor directory. Every later request naming it is
      refused (a cancel cannot remove it, a further segment cannot be
      written, segment 1 cannot reuse the id) and it stays in that
      state. */
  lemma StrandedTransfer(s: State, m: Message, freshId: Id, digest: seq<byte> -> string)
    requires Truthy(m.fileId)
    requires m.fileId.value in s.sessions && m.fileId.value !in s.markers && m.fileId.value !in s.dirs
    ensures var id := m.fileId.value;
            var (t, r) := StoreSegment(s, m, freshId, digest);
            r.Err? && id in t.sessions && id !in t.markers && id !in t.dirs
            && t.sessions[id].name == s.sessions[id].name
            && (CheckRequest(m).Ok? && CheckRequest(m).value.requested.Cancel?
                && CheckRequest(m).value.segmentNumber.Some? && CheckRequest(m).value.segmentNumber.value > 1
                ==> (t, r) == (s, Err(NoSuchDirectory(id))))
  {
    assert s.markers - {m.fileId.value} == s.markers;
  }
}
