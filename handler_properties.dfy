/** Properties of the request callback's protocol, stated over
    HandlerModel: what each kind of request does to the registry, the
    markers and the storage directory, the invariant every request keeps,
    and how it differs from the file store manager. */
module HandlerProperties {
  import opened Wire
  import opened Storage
  import StoreModel
  import opened HandlerModel

  // ---- The invariant ---------------------------------------------------

  lemma WriteKeepsInvariant(s: State, id: Id, segment: seq<byte>)
    requires Invariant(s) && id in s.sessions
    ensures Invariant(WriteSegment(s, id, segment).0)
  {
    var t := WriteSegment(s, id, segment).0;
    if id in s.dirs {
      forall x | x in t.sessions && x in t.dirs
        ensures FileOf(t, x) == t.sessions[x].hashed
      {
        if x != id {
          assert t.sessions[x] == s.sessions[x] && t.dirs[x] == s.dirs[x];
        }
      }
    }
  }

  lemma FinishKeepsInvariant(s: State, id: Id, requested: RequestedResult, lastSegment: seq<byte>,
                             digest: seq<byte> -> string)
    requires Invariant(s) && id in s.sessions && !requested.NoResult?
    ensures Invariant(Finish(s, id, requested, lastSegment, digest).0)
  {
    var s1 := s.(markers := s.markers - {id});
    assert Invariant(s1);
    if requested.Store? {
      WriteKeepsInvariant(s1, id, lastSegment);
    }
    var t := Finish(s, id, requested, lastSegment, digest).0;
    forall x | x in t.sessions && x in t.dirs && x != id
      ensures FileOf(t, x) == t.sessions[x].hashed
    {
      assert t.sessions[x] == s.sessions[x] && t.dirs[x] == s.dirs[x];
    }
  }

  lemma ProcessSegmentKeepsInvariant(s: State, id: Id, segmentNumber: Option<int>, requested: RequestedResult,
                                     payload: seq<byte>, digest: seq<byte> -> string)
    requires Invariant(s) && id in s.sessions
    ensures Invariant(ProcessSegment(s, id, segmentNumber, requested, payload, digest).0)
  {
    var received := s.sessions[id].segmentsReceived;
    if requested.Cancel? || segmentNumber == Some(received + 1) {
      var s1 := if requested.Cancel? then s else Counted(s, id);
      assert Invariant(s1);
      if requested.NoResult? {
        WriteKeepsInvariant(s1, id, payload);
      } else {
        FinishKeepsInvariant(s1, id, requested, payload, digest);
      }
    }
  }

  /** Every request keeps the invariant: a new transfer always gets a new,
      empty directory, and every byte written is fed to the hash. */
  lemma OnRequestKeepsInvariant(s: State, m: Message, freshId: Id, digest: seq<byte> -> string)
    requires Invariant(s)
    ensures Invariant(OnRequest(s, m, freshId, digest).0)
  {
    match CheckRequest(m)
    case Err(_) =>
    case Ok(c) =>
      var (s1, e) := GetFileEntry(s, m.fileId, m.name.value, freshId);
      assert Invariant(s1) by {
        if !Truthy(m.fileId) && freshId !in s.dirs {
          forall x | x in s1.sessions && x in s1.dirs
            ensures FileOf(s1, x) == s1.sessions[x].hashed
          {
            if x != freshId {
              assert s1.sessions[x] == s.sessions[x] && s1.dirs[x] == s.dirs[x];
            }
          }
        }
      }
      if e.Ok? {
        ProcessSegmentKeepsInvariant(s1, e.value, c.segmentNumber, c.requested, m.payload, digest);
      }
  }

  /** Right after the startup sweep no marker is left, no directory of an
      id that had one remains, and the invariant holds. */
  lemma SweepEstablishesInvariant(leftMarkers: set<Id>, leftDirs: map<Id, Folder>)
    ensures var t := Swept(State(map[], leftMarkers, leftDirs));
            Invariant(t) && t.markers == {} && t.sessions == map[]
            && forall id | id in leftMarkers :: id !in t.dirs
  {
  }

  // ---- One request -----------------------------------------------------

  /** A request refused by the checks before `_get_file_entry` (no name, a
      size or segment number that is not an integer, a malformed requested
      result) changes nothing. */
  lemma CheckFailureChangesNothing(s: State, m: Message, freshId: Id, digest: seq<byte> -> string)
    requires CheckRequest(m).Err?
    ensures OnRequest(s, m, freshId, digest) == (s, Err(CheckRequest(m).failure))
  {
  }

  /** A request with a file id that is not registered is refused and
      changes nothing. */
  lemma UnknownIdChangesNothing(s: State, m: Message, freshId: Id, digest: seq<byte> -> string)
    requires CheckRequest(m).Ok? && Truthy(m.fileId) && m.fileId.value !in s.sessions
    ensures OnRequest(s, m, freshId, digest) == (s, Err(UnknownFileId(m.fileId.value)))
  {
  }

  /** For a registered transfer, a request other than cancel is accepted
      only when its segment number is the count plus one, and then the count
      rises by exactly one; any other number, an absent one included, is
      refused with the state untouched. */
  lemma SequencingRule(s: State, m: Message, freshId: Id, digest: seq<byte> -> string)
    requires CheckRequest(m).Ok? && !CheckRequest(m).value.requested.Cancel?
    requires Truthy(m.fileId) && m.fileId.value in s.sessions
    ensures var id, n := m.fileId.value, CheckRequest(m).value.segmentNumber;
            var received := s.sessions[id].segmentsReceived;
            var (t, r) := OnRequest(s, m, freshId, digest);
            (n != Some(received + 1) ==> (t, r) == (s, Err(UnexpectedSegment(received + 1, n))))
            && (n == Some(received + 1) ==>
                  id in t.sessions && t.sessions[id].segmentsReceived == received + 1
                  && (r.Ok? ==> r.value[SegmentsReceivedKey] == Number(received + 1)))
  {
  }

  /** A request without a file id always creates a new transfer, whatever
      its segment number says; when that number is not 1 the sequencing
      check then refuses it, but the new entry, marker and directory stay. */
  lemma NewTransferNotRolledBack(s: State, m: Message, freshId: Id, digest: seq<byte> -> string)
    requires CheckRequest(m).Ok? && !Truthy(m.fileId) && freshId !in s.dirs
    requires CheckRequest(m).value.segmentNumber != Some(1)
    ensures var n := CheckRequest(m).value.segmentNumber;
            OnRequest(s, m, freshId, digest)
              == (State(s.sessions[freshId := Entry(m.name.value, 0, [])], s.markers + {freshId},
                        s.dirs[freshId := map[]]),
                  Err(UnexpectedSegment(1, n)))
  {
  }

  /** A request without a file id whose generated id names an existing
      directory is refused, leaving a marker for that id behind. */
  lemma GeneratedIdClash(s: State, m: Message, freshId: Id, digest: seq<byte> -> string)
    requires CheckRequest(m).Ok? && !Truthy(m.fileId) && freshId in s.dirs
    ensures OnRequest(s, m, freshId, digest)
              == (s.(markers := s.markers + {freshId}), Err(DirectoryExists(freshId)))
  {
  }

  /** The first segment of a new transfer creates it under the generated
      id, with the payload as its file and its hash input. */
  lemma FirstSegment(s: State, m: Message, freshId: Id, digest: seq<byte> -> string)
    requires CheckRequest(m) == Ok(StoreModel.Checked(Some(1), NoResult))
    requires !Truthy(m.fileId) && freshId !in s.dirs
    ensures OnRequest(s, m, freshId, digest)
              == (State(s.sessions[freshId := Entry(m.name.value, 1, m.payload)], s.markers + {freshId},
                        s.dirs[freshId := map[m.name.value := m.payload]]),
                  Ok(Response(freshId, None, 1)))
  {
    var name := m.name.value;
    var created := State(s.sessions[freshId := Entry(name, 0, [])], s.markers + {freshId}, s.dirs[freshId := map[]]);
    assert GetFileEntry(s, m.fileId, name, freshId) == (created, Ok(freshId));
    var counted := Counted(created, freshId);
    assert counted.sessions == s.sessions[freshId := Entry(name, 1, [])];
    var empty: Folder := map[];
    assert Content(empty, name) + m.payload == m.payload;
    var (t, w) := WriteSegment(counted, freshId, m.payload);
    assert t.dirs == s.dirs[freshId := map[name := m.payload]];
    assert t.sessions == s.sessions[freshId := Entry(name, 1, m.payload)] by {
      if m.payload == [] {
        assert [] + m.payload == m.payload;
      }
    }
  }

  /** Segment 1 without a file id may itself ask for store. The transfer
      is created in a new directory under the generated id and completed
      at once: the marker is gone again and the entry stays registered
      with one segment counted. The store succeeds exactly when the payload
      has the declared size and is empty or hashes to the declared hash;
      on a mismatch the new directory is deleted again. */
  lemma FirstSegmentStores(s: State, m: Message, freshId: Id, digest: seq<byte> -> string)
    requires CheckRequest(m).Ok? && CheckRequest(m).value.segmentNumber == Some(1)
    requires CheckRequest(m).value.requested.Store?
    requires !Truthy(m.fileId) && freshId !in s.dirs
    ensures var name, req := m.name.value, CheckRequest(m).value.requested;
            var (t, r) := OnRequest(s, m, freshId, digest);
            t.markers == s.markers - {freshId}
            && t.sessions == s.sessions[freshId := Entry(name, 1, m.payload)]
            && (r.Ok? <==> |m.payload| == req.size && (|m.payload| == 0 || digest(m.payload) == req.hash))
            && (r.Ok? ==>
                  r.value == Response(freshId, Some(StoreLabel), 1)
                  && t.dirs == s.dirs[freshId := map[name := m.payload]])
            && (r.Err? ==> r.failure == IntegrityMismatch(freshId) && t.dirs == s.dirs)
  {
    var name, req := m.name.value, CheckRequest(m).value.requested;
    var created := State(s.sessions[freshId := Entry(name, 0, [])], s.markers + {freshId}, s.dirs[freshId := map[]]);
    assert OnRequest(s, m, freshId, digest) == ProcessSegment(created, freshId, Some(1), req, m.payload, digest) by {
      assert GetFileEntry(s, m.fileId, name, freshId) == (created, Ok(freshId));
    }
    CreatedStores(s, freshId, name, req.size, req.hash, m.payload, digest);
  }

  /** The store step of a transfer just created in a new directory. */
  lemma CreatedStores(s: State, id: Id, name: string, size: int, hash: string, payload: seq<byte>,
                      digest: seq<byte> -> string)
    requires id !in s.dirs
    ensures var created := State(s.sessions[id := Entry(name, 0, [])], s.markers + {id}, s.dirs[id := map[]]);
            var (t, r) := ProcessSegment(created, id, Some(1), Store(size, hash), payload, digest);
            t.markers == s.markers - {id}
            && t.sessions == s.sessions[id := Entry(name, 1, payload)]
            && (r.Ok? <==> |payload| == size && (|payload| == 0 || digest(payload) == hash))
            && (r.Ok? ==> r.value == Response(id, Some(StoreLabel), 1) && t.dirs == s.dirs[id := map[name := payload]])
            && (r.Err? ==> r.failure == IntegrityMismatch(id) && t.dirs == s.dirs)
  {
    var created := State(s.sessions[id := Entry(name, 0, [])], s.markers + {id}, s.dirs[id := map[]]);
    var unmarked := State(s.sessions[id := Entry(name, 1, [])], s.markers - {id}, s.dirs[id := map[]]);
    assert Counted(created, id).(markers := Counted(created, id).markers - {id}) == unmarked;
    assert WriteSegment(unmarked, id, payload)
        == (State(s.sessions[id := Entry(name, 1, payload)], s.markers - {id}, s.dirs[id := map[name := payload]]), Ok(())) by {
      WriteSingleFile(s, id, name, 1, [], map[], s.markers - {id}, payload);
      assert [] + payload == payload;
    }
    assert s.dirs[id := map[name := payload]] - {id} == s.dirs;
  }

  /** An ordinary segment for a transfer whose directory exists appends
      exactly its payload to the file and to the hash accumulator, counts
      one more segment, leaves everything else alone, and answers with the
      id and the new count but no `result`. */
  lemma OrdinarySegment(s: State, m: Message, freshId: Id, digest: seq<byte> -> string)
    requires CheckRequest(m).Ok? && CheckRequest(m).value.requested.NoResult?
    requires Truthy(m.fileId) && m.fileId.value in s.sessions && m.fileId.value in s.dirs
    requires CheckRequest(m).value.segmentNumber == Some(s.sessions[m.fileId.value].segmentsReceived + 1)
    ensures var id := m.fileId.value;
            var e := s.sessions[id];
            var n := e.segmentsReceived + 1;
            var (t, r) := OnRequest(s, m, freshId, digest);
            r == Ok(Response(id, None, n)) && ResultKey !in r.value
            && id in t.sessions && id in t.dirs
            && t.sessions[id] == Entry(e.name, n, e.hashed + m.payload)
            && FileOf(t, id) == FileOf(s, id) + m.payload
            && t.markers == s.markers && OnlyTouches(s, t, id)
  {
  }

  /** A store request with the next segment number removes the marker
      first. It succeeds exactly when the file (with the last payload) has
      the declared size and is either empty or hashes to the declared hash,
      answering `store`; otherwise the directory is deleted. Either way the
      entry stays registered, counted. */
  lemma StoreCompletion(s: State, m: Message, freshId: Id, digest: seq<byte> -> string)
    requires CheckRequest(m).Ok? && CheckRequest(m).value.requested.Store?
    requires Truthy(m.fileId) && m.fileId.value in s.sessions && m.fileId.value in s.dirs
    requires CheckRequest(m).value.segmentNumber == Some(s.sessions[m.fileId.value].segmentsReceived + 1)
    ensures var id, req := m.fileId.value, CheckRequest(m).value.requested;
            var e := s.sessions[id];
            var n := e.segmentsReceived + 1;
            var (t, r) := OnRequest(s, m, freshId, digest);
            t.markers == s.markers - {id} && OnlyTouches(s, t, id)
            && id in t.sessions && t.sessions[id] == Entry(e.name, n, e.hashed + m.payload)
            && (r.Ok? <==> StoreAccepted(s, id, req.size, req.hash, m.payload, digest))
            && (r.Ok? ==>
                  r.value == Response(id, Some(StoreLabel), n)
                  && id in t.dirs && FileOf(t, id) == FileOf(s, id) + m.payload)
            && (r.Err? ==> r.failure == IntegrityMismatch(id) && id !in t.dirs)
  {
  }

  /** The integrity guarantee the invariant exists for: whenever a store
      request succeeds, the stored file itself has the declared size and
      is empty or hashes to the declared hash. */
  lemma StoredFileIntact(s: State, m: Message, freshId: Id, digest: seq<byte> -> string)
    requires Invariant(s)
    requires CheckRequest(m).Ok? && CheckRequest(m).value.requested.Store?
    ensures var id, req := StoreModel.ChosenId(m.fileId, freshId), CheckRequest(m).value.requested;
            var (t, r) := OnRequest(s, m, freshId, digest);
            r.Ok? ==>
              id in t.sessions && id in t.dirs
              && |FileOf(t, id)| == req.size
              && (FileOf(t, id) == [] || digest(FileOf(t, id)) == req.hash)
  {
    var id := StoreModel.ChosenId(m.fileId, freshId);
    if Truthy(m.fileId) {
      if id in s.sessions && id in s.dirs
         && CheckRequest(m).value.segmentNumber == Some(s.sessions[id].segmentsReceived + 1) {
        StoreCompletion(s, m, freshId, digest);
        assert FileOf(s, id) == s.sessions[id].hashed;
      }
    } else if freshId in s.dirs {
      GeneratedIdClash(s, m, freshId, digest);
    } else if CheckRequest(m).value.segmentNumber == Some(1) {
      FirstSegmentStores(s, m, freshId, digest);
    } else {
      NewTransferNotRolledBack(s, m, freshId, digest);
    }
  }

  /** Cancel skips the sequencing check and does not write the payload: it
      removes the directory and the marker, keeps the entry as it was, and
      answers `cancel` with the count unchanged. */
  lemma CancelTransfer(s: State, m: Message, freshId: Id, digest: seq<byte> -> string)
    requires CheckRequest(m).Ok? && CheckRequest(m).value.requested.Cancel?
    requires Truthy(m.fileId) && m.fileId.value in s.sessions && m.fileId.value in s.dirs
    ensures var id := m.fileId.value;
            OnRequest(s, m, freshId, digest)
              == (State(s.sessions, s.markers - {id}, s.dirs - {id}),
                  Ok(Response(id, Some(CancelLabel), s.sessions[id].segmentsReceived)))
  {
    var id := m.fileId.value;
    var t := OnRequest(s, m, freshId, digest).0;
    assert t.dirs == s.dirs - {id};
  }

  /** Cancel is refused before any state changes when the request has no
      file id. */
  lemma CancelNeedsId(m: Message)
    requires Truthy(m.name) && AsInt(m.size, SizeKey).Ok?
    requires m.result == Some(CancelLabel) && !Truthy(m.fileId)
    ensures CheckRequest(m) == Err(MissingCancelId)
  {
  }

  /** No request ever removes an entry from the registry, and an entry
      other than the one the request names, or creates, is untouched. */
  lemma EntryNeverRemoved(s: State, m: Message, freshId: Id, digest: seq<byte> -> string)
    ensures var t := OnRequest(s, m, freshId, digest).0;
            s.sessions.Keys <= t.sessions.Keys
            && forall id | id in s.sessions && id != freshId && Some(id) != m.fileId ::
                 t.sessions[id] == s.sessions[id]
  {
    match CheckRequest(m)
    case Err(_) =>
    case Ok(c) =>
      var (s1, e) := GetFileEntry(s, m.fileId, m.name.value, freshId);
      if e.Ok? {
        var id := e.value;
        var t := ProcessSegment(s1, id, c.segmentNumber, c.requested, m.payload, digest).0;
        assert s1.sessions.Keys <= t.sessions.Keys && t.sessions - {id} == s1.sessions - {id} by {
          var received := s1.sessions[id].segmentsReceived;
          if c.requested.Cancel? || c.segmentNumber == Some(received + 1) {
            var s2 := if c.requested.Cancel? then s1 else Counted(s1, id);
            assert s2.sessions - {id} == s1.sessions - {id};
          }
        }
        forall x | x in s.sessions && x != freshId && Some(x) != m.fileId
          ensures t.sessions[x] == s.sessions[x]
        {
          assert x in s1.sessions - {id};
        }
      }
  }

  /** A transfer that has been stored stays registered, so a further
      segment with the next number is accepted and appended to the stored
      file. */
  lemma StoredFileStillGrows(s: State, store: Message, more: Message, freshId: Id, freshId': Id,
                             digest: seq<byte> -> string)
    requires CheckRequest(store).Ok? && CheckRequest(store).value.requested.Store?
    requires Truthy(store.fileId) && store.fileId.value in s.sessions && store.fileId.value in s.dirs
    requires CheckRequest(store).value.segmentNumber == Some(s.sessions[store.fileId.value].segmentsReceived + 1)
    requires OnRequest(s, store, freshId, digest).1.Ok?
    requires CheckRequest(more).Ok? && CheckRequest(more).value.requested.NoResult?
    requires more.fileId == store.fileId
    requires CheckRequest(more).value.segmentNumber == Some(s.sessions[store.fileId.value].segmentsReceived + 2)
    ensures var id := store.fileId.value;
            var t := OnRequest(s, store, freshId, digest).0;
            var (u, r) := OnRequest(t, more, freshId', digest);
            r.Ok? && id in u.dirs && FileOf(u, id) == FileOf(s, id) + store.payload + more.payload
  {
    StoreCompletion(s, store, freshId, digest);
    var t := OnRequest(s, store, freshId, digest).0;
    OrdinarySegment(t, more, freshId', digest);
  }

  /** After a cancel the entry is still registered but its directory is
      gone: the next segment is counted, then fails to be written. */
  lemma CancelThenSegment(s: State, cancel: Message, next: Message, freshId: Id, freshId': Id,
                          digest: seq<byte> -> string)
    requires CheckRequest(cancel).Ok? && CheckRequest(cancel).value.requested.Cancel?
    requires Truthy(cancel.fileId) && cancel.fileId.value in s.sessions && cancel.fileId.value in s.dirs
    requires CheckRequest(next).Ok? && CheckRequest(next).value.requested.NoResult?
    requires next.fileId == cancel.fileId
    requires CheckRequest(next).value.segmentNumber == Some(s.sessions[cancel.fileId.value].segmentsReceived + 1)
    ensures var id := cancel.fileId.value;
            var t := OnRequest(s, cancel, freshId, digest).0;
            var (u, r) := OnRequest(t, next, freshId', digest);
            r == Err(NoSuchDirectory(id)) && u == Counted(t, id)
  {
    CancelTransfer(s, cancel, freshId, digest);
  }

  /** The response dictionary is the one the file store manager's segment
      result renders to. */
  lemma ResponseMatchesSegmentResult(id: Id, fileResult: Option<string>, count: int)
    requires fileResult.None? || Truthy(fileResult)
    ensures Response(id, fileResult, count) == StoreModel.ToDict(StoreModel.SegmentResult(id, count, fileResult))
  {
    var d := Response(id, fileResult, count);
    var e := StoreModel.ToDict(StoreModel.SegmentResult(id, count, fileResult));
    assert d.Keys == e.Keys;
  }
}
