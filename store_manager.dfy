/** `FileStoreManager`: the file store engine as an object whose registry
    and storage directory change in place. Each method performs the steps
    of its Python counterpart and is proved to end in the state, with the
    outcome, that StoreModel gives. */
module StoreManager {
  import opened Wire
  import opened Storage
  import opened StoreModel
  import StoreProperties

  class FileStoreManager {
    /** `_files`: the registered transfers. */
    var sessions: map<Id, Entry>
    /** The markers in the working directory `.workdir`. */
    var markers: set<Id>
    /** The subdirectories of the storage directory. */
    var dirs: map<Id, Folder>
    /** The hex digest of the SHA-256 accumulator after it was fed a byte
        sequence. */
    const digest: seq<byte> -> string
    /** What each registered transfer's file held when it was created. */
    ghost var baseline: map<Id, seq<byte>>

    function Current(): State
      reads this
    {
      State(sessions, markers, dirs)
    }

    ghost predicate Valid()
      reads this
    {
      Invariant(Current(), baseline)
    }

    /** `__init__`: start with no registered transfer over the storage
        directory a previous run left, and purge it. */
    constructor (leftMarkers: set<Id>, leftDirs: map<Id, Folder>, sha256: seq<byte> -> string)
      ensures Current() == Swept(State(map[], leftMarkers, leftDirs))
      ensures digest == sha256
      ensures Valid()
    {
      sessions := map[];
      markers := leftMarkers;
      dirs := leftDirs;
      digest := sha256;
      baseline := map[];
      new;
      PurgeIncompleteFiles();
    }

    /** `_purge_incomplete_files`: for each marker in the working
        directory, remove the directory of that id if it exists, then the
        marker. */
    method PurgeIncompleteFiles()
      modifies this`markers, this`dirs
      ensures Current() == Swept(old(Current()))
    {
      var listing := markers;
      while listing != {}
        invariant listing <= old(markers)
        invariant markers == listing
        invariant dirs == old(dirs) - (old(markers) - listing)
        decreases listing
      {
        var incomplete :| incomplete in listing;
        if incomplete in dirs {
          dirs := dirs - {incomplete};
        }
        markers := markers - {incomplete};
        listing := listing - {incomplete};
      }
    }

    /** `_write_file_segment`. */
    method WriteFileSegment(id: Id, segment: seq<byte>) returns (r: Outcome<()>)
      requires id in sessions
      modifies this`sessions, this`dirs
      ensures (Current(), r) == WriteSegment(old(Current()), id, segment)
    {
      var entry := sessions[id];
      var received := entry.segmentsReceived;
      if id !in dirs {
        return Err(NoSuchDirectory(id));
      }
      var folder := dirs[id];
      folder := folder[entry.name := Content(folder, entry.name)];
      if |segment| > 0 {
        folder := folder[entry.name := folder[entry.name] + segment];
        entry := entry.(hashed := entry.hashed + segment);
      } else {
        assert Content(old(dirs)[id], entry.name) + segment == Content(old(dirs)[id], entry.name);
      }
      assert folder == old(dirs)[id][entry.name := Content(old(dirs)[id], entry.name) + segment];
      dirs := dirs[id := folder];
      sessions := sessions[id := entry.(segmentsReceived := received)];
      r := Ok(());
    }

    /** `_get_file_entry`. */
    method GetFileEntry(fileId: Option<string>, name: Option<string>, segmentNumber: Option<int>, freshId: Id)
      returns (r: Outcome<Id>)
      modifies this`sessions, this`markers, this`dirs
      ensures (Current(), r) == StoreModel.GetFileEntry(old(Current()), fileId, name, segmentNumber, freshId)
    {
      var id := if Truthy(fileId) then fileId.value else freshId;
      if segmentNumber.None? {
        return Err(SegmentNumberMissing);
      }
      if segmentNumber.value > 1 {
        if id !in sessions {
          return Err(UnknownFileId(id));
        }
        return Ok(id);
      }
      if id in sessions {
        return Err(IdInUse(id));
      }
      if id in markers {
        return Err(WorkFileExists(id));
      }
      markers := markers + {id};
      if id !in dirs {
        dirs := dirs[id := map[]];
      }
      if name.None? {
        return Err(NameNotText);
      }
      sessions := sessions[id := Entry(name.value, 0, [])];
      r := Ok(id);
    }

    /** `_complete_file`. */
    method CompleteFile(id: Id, requested: RequestedResult, lastSegment: seq<byte>) returns (r: Outcome<string>)
      requires id in sessions && !requested.NoResult?
      modifies this`sessions, this`markers, this`dirs
      ensures (Current(), r) == StoreModel.CompleteFile(old(Current()), id, requested, lastSegment, digest)
    {
      if id in markers {
        markers := markers - {id};
      }
      assert Current() == old(Current()).(markers := old(markers) - {id});
      var result;
      if requested.Store? {
        var written := WriteFileSegment(id, lastSegment);
        if written.Err? {
          return Err(written.failure);
        }
        var stored := Content(dirs[id], sessions[id].name);
        var sizeBad := |stored| != requested.size;
        var hashBad := |stored| != 0 && digest(sessions[id].hashed) != requested.hash;
        if sizeBad || hashBad {
          dirs := dirs - {id};
          return Err(IntegrityMismatch(id));
        }
        result := StoreLabel;
      } else {
        if id !in dirs {
          return Err(NoSuchDirectory(id));
        }
        dirs := dirs - {id};
        result := CancelLabel;
      }
      sessions := sessions - {id};
      r := Ok(result);
    }

    /** The second half of `store_segment`, once the transfer is found or
        created: the sequencing check, then completion or an append. */
    method ProcessEntry(id: Id, segmentNumber: int, requested: RequestedResult, payload: seq<byte>)
      returns (r: Outcome<SegmentResult>)
      requires id in sessions
      modifies this`sessions, this`markers, this`dirs
      ensures (Current(), r) == StoreModel.ProcessEntry(old(Current()), id, segmentNumber, requested, payload, digest)
    {
      if !requested.Cancel? {
        var received := sessions[id].segmentsReceived;
        if received + 1 == segmentNumber {
          sessions := sessions[id := sessions[id].(segmentsReceived := received + 1)];
        } else {
          return Err(UnexpectedSegment(received + 1, Some(segmentNumber)));
        }
      }
      var count := sessions[id].segmentsReceived;
      var fileResult := None;
      if !requested.NoResult? {
        var done := CompleteFile(id, requested, payload);
        if done.Err? {
          return Err(done.failure);
        }
        fileResult := Some(done.value);
      } else {
        var written := WriteFileSegment(id, payload);
        if written.Err? {
          return Err(written.failure);
        }
      }
      r := Ok(SegmentResult(id, count, fileResult));
    }

    /** `store_segment`: the single entry point. */
    method StoreSegment(message: Message, freshId: Id) returns (r: Outcome<SegmentResult>)
      requires Valid()
      modifies this`sessions, this`markers, this`dirs, this`baseline
      ensures (Current(), r) == StoreModel.StoreSegment(old(Current()), message, freshId, digest)
      ensures Valid()
    {
      ghost var after := StoreModel.StoreSegment(Current(), message, freshId, digest).0;
      ghost var base := NewBaseline(Current(), baseline, message, freshId);
      assert Invariant(after, base) by {
        StoreProperties.StoreSegmentKeepsInvariant(Current(), baseline, message, freshId, digest);
      }
      baseline := base;
      var checked := CheckRequest(message);
      if checked.Err? {
        return Err(checked.failure);
      }
      var segmentNumber := checked.value.segmentNumber;
      var requested := checked.value.requested;
      var entry := GetFileEntry(message.fileId, message.name, segmentNumber, freshId);
      if entry.Err? {
        return Err(entry.failure);
      }
      r := ProcessEntry(entry.value, segmentNumber.value, requested, message.payload);
    }
  }
}
