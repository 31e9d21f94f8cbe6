/** `FileStoreRequestCallback`: the request callback as an object whose
    registry and storage directory change in place. Each method performs
    the steps of its Python counterpart and is proved to end in the state,
    with the outcome, that HandlerModel gives. */
module HandlerCallback {
  import opened Wire
  import opened Storage
  import opened HandlerModel
  import HandlerProperties

  class FileStoreRequestCallback {
    /** `_files`: the registered transfers. */
    var sessions: map<Id, Entry>
    /** The markers in the working directory `.workdir`. */
    var markers: set<Id>
    /** The subdirectories of the storage directory. */
    var dirs: map<Id, Folder>
    /** The hex digest of the MD5 accumulator after it was fed a byte
        sequence. */
    const digest: seq<byte> -> string

    function Current(): State
      reads this
    {
      State(sessions, markers, dirs)
    }

    predicate Valid()
      reads this
    {
      Invariant(Current())
    }

    /** `__init__`: start with no registered transfer over the storage
        directory a previous run left, and purge it. */
    constructor (leftMarkers: set<Id>, leftDirs: map<Id, Folder>, md5: seq<byte> -> string)
      ensures Current() == Swept(State(map[], leftMarkers, leftDirs))
      ensures digest == md5
      ensures Valid()
    {
      sessions := map[];
      markers := leftMarkers;
      dirs := leftDirs;
      digest := md5;
      new;
      PurgeIncompleteFiles();
      HandlerProperties.SweepEstablishesInvariant(leftMarkers, leftDirs);
    }

    /** `_purge_incomplete_files`: for each marker in the working
        directory, remove the directory of that id if it exists, then the
        marker. */
    method PurgeIncompleteFiles()
      modifies this`markers, this`dirs
      ensures Current() == Swept(old(Current()))
    {
      var listing := markers;
      while listing != {}
        invariant listing <= old(markers)
        invariant markers == listing
        invariant dirs == old(dirs) - (old(markers) - listing)
        decreases listing
      {
        var incomplete :| incomplete in listing;
        if incomplete in dirs {
          dirs := dirs - {incomplete};
        }
        markers := markers - {incomplete};
        listing := listing - {incomplete};
      }
    }

    /** `_write_file_segment`. */
    method WriteFileSegment(id: Id, segment: seq<byte>) returns (r: Outcome<()>)
      requires id in sessions
      modifies this`sessions, this`dirs
      ensures (Current(), r) == WriteSegment(old(Current()), id, segment)
    {
      var entry := sessions[id];
      var received := entry.segmentsReceived;
      if id !in dirs {
        return Err(NoSuchDirectory(id));
      }
      var folder := dirs[id];
      folder := folder[entry.name := Content(folder, entry.name)];
      if |segment| > 0 {
        folder := folder[entry.name := folder[entry.name] + segment];
        entry := entry.(hashed := entry.hashed + segment);
      } else {
        assert Content(old(dirs)[id], entry.name) + segment == Content(old(dirs)[id], entry.name);
      }
      assert folder == old(dirs)[id][entry.name := Content(old(dirs)[id], entry.name) + segment];
      dirs := dirs[id := folder];
      sessions := sessions[id := entry.(segmentsReceived := received)];
      r := Ok(());
    }

    /** `_get_file_entry`. */
    method GetFileEntry(fileId: Option<string>, name: string, freshId: Id) returns (r: Outcome<Id>)
      modifies this`sessions, this`markers, this`dirs
      ensures (Current(), r) == HandlerModel.GetFileEntry(old(Current()), fileId, name, freshId)
    {
      if Truthy(fileId) {
        if fileId.value !in sessions {
          return Err(UnknownFileId(fileId.value));
        }
        return Ok(fileId.value);
      }
      var id := freshId;
      markers := markers + {id};
      if id in dirs {
        return Err(DirectoryExists(id));
      }
      dirs := dirs[id := map[]];
      sessions := sessions[id := Entry(name, 0, [])];
      r := Ok(id);
    }

    /** `_complete_file`: the entry stays registered. */
    method CompleteFile(id: Id, requested: RequestedResult, lastSegment: seq<byte>) returns (r: Outcome<string>)
      requires id in sessions && !requested.NoResult?
      modifies this`sessions, this`markers, this`dirs
      ensures (Current(), r) == Finish(old(Current()), id, requested, lastSegment, digest)
    {
      if id in markers {
        markers := markers - {id};
      }
      assert Current() == old(Current()).(markers := old(markers) - {id});
      if requested.Store? {
        var written := WriteFileSegment(id, lastSegment);
        if written.Err? {
          return Err(written.failure);
        }
        var stored := Content(dirs[id], sessions[id].name);
        var sizeBad := |stored| != requested.size;
        var hashBad := |stored| != 0 && digest(sessions[id].hashed) != requested.hash;
        if sizeBad || hashBad {
          dirs := dirs - {id};
          return Err(IntegrityMismatch(id));
        }
        r := Ok(StoreLabel);
      } else {
        if id !in dirs {
          return Err(NoSuchDirectory(id));
        }
        dirs := dirs - {id};
        r := Ok(CancelLabel);
      }
    }

    /** `_process_segment`. */
    method ProcessSegment(id: Id, segmentNumber: Option<int>, requested: RequestedResult, payload: seq<byte>)
      returns (r: Outcome<map<string, Field>>)
      requires id in sessions
      modifies this`sessions, this`markers, this`dirs
      ensures (Current(), r)
           == HandlerModel.ProcessSegment(old(Current()), id, segmentNumber, requested, payload, digest)
    {
      var result := map[FileIdKey := Text(id)];
      if !requested.Cancel? {
        var received := sessions[id].segmentsReceived;
        if Some(received + 1) == segmentNumber {
          sessions := sessions[id := sessions[id].(segmentsReceived := received + 1)];
        } else {
          return Err(UnexpectedSegment(received + 1, segmentNumber));
        }
      }
      if !requested.NoResult? {
        var done := CompleteFile(id, requested, payload);
        if done.Err? {
          return Err(done.failure);
        }
        result := result[ResultKey := Text(done.value)];
      } else {
        var written := WriteFileSegment(id, payload);
        if written.Err? {
          return Err(written.failure);
        }
      }
      result := result[SegmentsReceivedKey := Number(sessions[id].segmentsReceived)];
      r := Ok(result);
    }

    /** `on_request`, up to sending the response: the checks in their
        order, then find or create the transfer and process the segment. */
    method OnRequest(message: Message, freshId: Id) returns (r: Outcome<map<string, Field>>)
      requires Valid()
      modifies this`sessions, this`markers, this`dirs
      ensures (Current(), r) == HandlerModel.OnRequest(old(Current()), message, freshId, digest)
      ensures Valid()
    {
      HandlerProperties.OnRequestKeepsInvariant(Current(), message, freshId, digest);
      if !Truthy(message.name) {
        return Err(MissingName);
      }
      var name := message.name.value;
      var size := AsInt(message.size, SizeKey);
      if size.Err? {
        return Err(size.failure);
      }
      var requested := RequestedFileResult(message.result, message.fileId, size.value, message.hash);
      if requested.Err? {
        return Err(requested.failure);
      }
      var segmentNumber := AsInt(message.segmentNumber, SegmentNumberKey);
      if segmentNumber.Err? {
        return Err(segmentNumber.failure);
      }
      var entry := GetFileEntry(message.fileId, name, freshId);
      if entry.Err? {
        return Err(entry.failure);
      }
      r := ProcessSegment(entry.value, segmentNumber.value, requested.value, message.payload);
    }
  }
}
