/** The file store manager (`FileStoreManager.store_segment`) as functions
    from the state before a request to the state after it and the outcome.
    The class in StoreManager performs the same steps in place and is
    proved equal to these functions. */
module StoreModel {
  import opened Wire
  import opened Storage

  /** `FileStoreSegmentResult`: the id, the count of segments received, and
      the file result of a completing request. */
  datatype SegmentResult = SegmentResult(fileId: Id, segmentsReceived: int, fileResult: Option<string>)

  /** `FileStoreSegmentResult.to_dict`: `file_id` and `segments_received`
      always, `result` only when a file result is set. */
  function ToDict(r: SegmentResult): (d: map<string, Field>)
    ensures FileIdKey in d && d[FileIdKey] == Text(r.fileId)
    ensures SegmentsReceivedKey in d && d[SegmentsReceivedKey] == Number(r.segmentsReceived)
    ensures ResultKey in d <==> Truthy(r.fileResult)
    ensures ResultKey in d ==> d[ResultKey] == Text(r.fileResult.value)
    ensures d.Keys <= {FileIdKey, SegmentsReceivedKey, ResultKey}
  {
    var d := map[FileIdKey := Text(r.fileId), SegmentsReceivedKey := Number(r.segmentsReceived)];
    if Truthy(r.fileResult) then d[ResultKey := Text(r.fileResult.value)] else d
  }

  /** `_get_requested_file_result`: an absent or empty `result` asks for
      nothing; `store` needs a size and a non-empty hash; `cancel` needs
      nothing more; any other value is refused. */
  function RequestedFileResult(result: Option<string>, size: Option<int>, hash: Option<string>)
    : (r: Outcome<RequestedResult>)
    ensures r == Ok(NoResult) <==> !Truthy(result)
    ensures r == Ok(Cancel) <==> result == Some(CancelLabel)
    ensures r.Ok? && r.value.Store? <==> result == Some(StoreLabel) && size.Some? && Truthy(hash)
    ensures r.Ok? && r.value.Store? ==> r.value == Store(size.value, hash.value)
    ensures result == Some(StoreLabel) && size.None? ==> r == Err(MissingSize)
    ensures result == Some(StoreLabel) && size.Some? && !Truthy(hash) ==> r == Err(MissingHash)
    ensures Truthy(result) && result.value != StoreLabel && result.value != CancelLabel ==>
              r == Err(UnexpectedResult(result.value))
  {
    if !Truthy(result) then Ok(NoResult)
    else if result.value == StoreLabel then
      if size.None? then Err(MissingSize)
      else if !Truthy(hash) then Err(MissingHash)
      else Ok(Store(size.value, hash.value))
    else if result.value == CancelLabel then Ok(Cancel)
    else Err(UnexpectedResult(result.value))
  }

  /** What `store_segment` has read from a request before it looks up or
      creates the transfer. */
  datatype Checked = Checked(segmentNumber: Option<int>, requested: RequestedResult)

  /** The checks `store_segment` makes before touching any state: the
      segment number and size convert to integers, segment 1 carries a
      name, every other segment (an absent number included) carries a file
      id, and the requested result is well formed. */
  function CheckRequest(m: Message): (r: Outcome<Checked>)
    ensures r.Ok? <==>
              AsInt(m.segmentNumber, SegmentNumberKey).Ok?
              && (AsInt(m.segmentNumber, SegmentNumberKey).value == Some(1) ==> Truthy(m.name))
              && (AsInt(m.segmentNumber, SegmentNumberKey).value != Some(1) ==> Truthy(m.fileId))
              && AsInt(m.size, SizeKey).Ok?
              && RequestedFileResult(m.result, AsInt(m.size, SizeKey).value, m.hash).Ok?
    ensures r.Ok? ==>
              r.value.segmentNumber == AsInt(m.segmentNumber, SegmentNumberKey).value
              && r.value.requested == RequestedFileResult(m.result, AsInt(m.size, SizeKey).value, m.hash).value
    ensures AsInt(m.segmentNumber, SegmentNumberKey).Err? ==> r == Err(NotAnInt(SegmentNumberKey))
    ensures AsInt(m.segmentNumber, SegmentNumberKey) == Ok(Some(1)) && !Truthy(m.name) ==> r == Err(MissingName)
    ensures AsInt(m.segmentNumber, SegmentNumberKey).Ok? && AsInt(m.segmentNumber, SegmentNumberKey).value != Some(1)
            && !Truthy(m.fileId) ==>
              r == Err(MissingFileId)
    ensures AsInt(m.segmentNumber, SegmentNumberKey).Ok?
            && (if AsInt(m.segmentNumber, SegmentNumberKey).value == Some(1) then Truthy(m.name) else Truthy(m.fileId))
            && AsInt(m.size, SizeKey).Err? ==>
              r == Err(NotAnInt(SizeKey))
    ensures AsInt(m.segmentNumber, SegmentNumberKey).Ok?
            && (if AsInt(m.segmentNumber, SegmentNumberKey).value == Some(1) then Truthy(m.name) else Truthy(m.fileId))
            && AsInt(m.size, SizeKey).Ok? && RequestedFileResult(m.result, AsInt(m.size, SizeKey).value, m.hash).Err? ==>
              r == Err(RequestedFileResult(m.result, AsInt(m.size, SizeKey).value, m.hash).failure)
  {
    match AsInt(m.segmentNumber, SegmentNumberKey)
    case Err(f) => Err(f)
    case Ok(segmentNumber) =>
      if segmentNumber == Some(1) && !Truthy(m.name) then Err(MissingName)
      else if segmentNumber != Some(1) && !Truthy(m.fileId) then Err(MissingFileId)
      else
        match AsInt(m.size, SizeKey)
        case Err(f) => Err(f)
        case Ok(size) =>
          match RequestedFileResult(m.result, size, m.hash)
          case Err(f) => Err(f)
          case Ok(requested) => Ok(Checked(segmentNumber, requested))
  }

  /** The id a request works on: its own `file_id` if one is set, else the
      freshly generated one. */
  function ChosenId(fileId: Option<string>, freshId: Id): Id
  {
    if Truthy(fileId) then fileId.value else freshId
  }

  /** `t` is `s` after the creation branch of `_get_file_entry` made the
      marker and (if absent) the directory of `id`, and registered a fresh
      entry when there is a name to build its path from. */
  predicate Created(s: State, t: State, id: Id, name: Option<string>)
  {
    t.markers == s.markers + {id}
    && id in t.dirs && t.dirs - {id} == s.dirs - {id}
    && t.dirs[id] == (if id in s.dirs then s.dirs[id] else map[])
    && t.sessions == (if name.Some? then s.sessions[id := Entry(name.value, 0, [])] else s.sessions)
  }

  /** `_get_file_entry`. A segment number above 1 looks the id up and
      changes nothing. Any other number creates a transfer under the id,
      which must be neither registered nor marked; the marker and the
      directory are made before the entry, whose path needs a name. */
  function GetFileEntry(s: State, fileId: Option<string>, name: Option<string>,
                        segmentNumber: Option<int>, freshId: Id): (out: (State, Outcome<Id>))
    ensures out.1.Ok? ==>
              segmentNumber.Some? && out.1.value == ChosenId(fileId, freshId) && out.1.value in out.0.sessions
    ensures segmentNumber.None? ==> out == (s, Err(SegmentNumberMissing))
    ensures segmentNumber.Some? && segmentNumber.value > 1 ==>
              out.0 == s && (out.1.Ok? <==> ChosenId(fileId, freshId) in s.sessions)
    ensures segmentNumber.Some? && segmentNumber.value <= 1 ==>
              var id := ChosenId(fileId, freshId);
              (id in s.sessions ==> out == (s, Err(IdInUse(id))))
              && (id !in s.sessions && id in s.markers ==> out == (s, Err(WorkFileExists(id))))
              && (id !in s.sessions && id !in s.markers ==>
                    Created(s, out.0, id, name) && (out.1.Ok? <==> name.Some?))
  {
    var id := ChosenId(fileId, freshId);
    if segmentNumber.None? then (s, Err(SegmentNumberMissing))
    else if segmentNumber.value > 1 then
      if id in s.sessions then (s, Ok(id)) else (s, Err(UnknownFileId(id)))
    else if id in s.sessions then (s, Err(IdInUse(id)))
    else if id in s.markers then (s, Err(WorkFileExists(id)))
    else
      var s1 := s.(markers := s.markers + {id},
                   dirs := if id in s.dirs then s.dirs else s.dirs[id := map[]]);
      if name.None? then (s1, Err(NameNotText))
      else (s1.(sessions := s1.sessions[id := Entry(name.value, 0, [])]), Ok(id))
  }

  /** `_complete_file`: the shared completion, then the entry leaves the
      registry, which only happens when no error was raised. */
  function CompleteFile(s: State, id: Id, requested: RequestedResult, lastSegment: seq<byte>,
                        digest: seq<byte> -> string): (out: (State, Outcome<string>))
    requires id in s.sessions && !requested.NoResult?
    ensures out.1.Ok? ==> id !in out.0.sessions
    ensures out.1.Err? ==> id in out.0.sessions
    ensures out.0.markers == s.markers - {id} && OnlyTouches(s, out.0, id)
  {
    var (t, r) := Finish(s, id, requested, lastSegment, digest);
    if r.Ok? then (t.(sessions := t.sessions - {id}), r) else (t, r)
  }

  /** The second half of `store_segment`, once the transfer `id` is
      found or created: require the next consecutive segment number
      (except for cancel), then complete the transfer or append the
      segment. The reported count is the entry's after the check. */
  function ProcessEntry(s: State, id: Id, segmentNumber: int, requested: RequestedResult,
                        payload: seq<byte>, digest: seq<byte> -> string): (out: (State, Outcome<SegmentResult>))
    requires id in s.sessions
    ensures var received := s.sessions[id].segmentsReceived;
            !requested.Cancel? && segmentNumber != received + 1 ==>
              out == (s, Err(UnexpectedSegment(received + 1, Some(segmentNumber))))
    ensures out.1.Ok? ==>
              out.1.value.fileId == id
              && out.1.value.segmentsReceived
                 == s.sessions[id].segmentsReceived + (if requested.Cancel? then 0 else 1)
              && (out.1.value.fileResult.Some? <==> !requested.NoResult?)
    ensures id !in out.0.sessions <==> out.1.Ok? && !requested.NoResult?
    ensures out.0.markers - {id} == s.markers - {id} && OnlyTouches(s, out.0, id)
    ensures var received := s.sessions[id].segmentsReceived;
            requested.NoResult? && segmentNumber == received + 1 ==>
              (id in s.dirs ==>
                 out.1 == Ok(SegmentResult(id, received + 1, None)) && Appended(Counted(s, id), out.0, id, payload))
              && (id !in s.dirs ==> out == (Counted(s, id), Err(NoSuchDirectory(id))))
    ensures var received := s.sessions[id].segmentsReceived;
            requested.Store? && segmentNumber == received + 1 ==>
              out.0.markers == s.markers - {id}
              && (out.1.Ok? <==> StoreAccepted(s, id, requested.size, requested.hash, payload, digest))
              && (out.1.Ok? ==>
                    out.1.value == SegmentResult(id, received + 1, Some(StoreLabel))
                    && id in s.dirs && id in out.0.dirs
                    && Content(out.0.dirs[id], s.sessions[id].name) == FileOf(s, id) + payload)
              && (out.1.Err? ==>
                    id !in out.0.dirs && id in out.0.sessions
                    && out.0.sessions[id].segmentsReceived == received + 1)
    ensures var received := s.sessions[id].segmentsReceived;
            requested.Cancel? ==>
              out.0 == State(if id in s.dirs then s.sessions - {id} else s.sessions, s.markers - {id}, s.dirs - {id})
              && out.1 == (if id in s.dirs then Ok(SegmentResult(id, received, Some(CancelLabel)))
                           else Err(NoSuchDirectory(id)))
  {
    var received := s.sessions[id].segmentsReceived;
    if !requested.Cancel? && received + 1 != segmentNumber then
      (s, Err(UnexpectedSegment(received + 1, Some(segmentNumber))))
    else
      var s1 := if requested.Cancel? then s else Counted(s, id);
      var count := s1.sessions[id].segmentsReceived;
      if requested.NoResult? then
        var (s2, w) := WriteSegment(s1, id, payload);
        (s2, if w.Err? then Err(w.failure) else Ok(SegmentResult(id, count, None)))
      else
        var (s2, d) := CompleteFile(s1, id, requested, payload, digest);
        (s2, if d.Err? then Err(d.failure) else Ok(SegmentResult(id, count, Some(d.value))))
  }

  /** `store_segment`: check the request, look up or create the transfer,
      then process the segment against it. */
  function StoreSegment(s: State, m: Message, freshId: Id, digest: seq<byte> -> string)
    : (out: (State, Outcome<SegmentResult>))
    ensures CheckRequest(m).Err? ==> out == (s, Err(CheckRequest(m).failure))
    ensures out.1.Ok? ==> out.1.value.fileId == ChosenId(m.fileId, freshId)
    ensures var id := ChosenId(m.fileId, freshId);
            out.0.markers - {id} == s.markers - {id} && OnlyTouches(s, out.0, id)
  {
    match CheckRequest(m)
    case Err(f) => (s, Err(f))
    case Ok(c) =>
      var (s1, e) := GetFileEntry(s, m.fileId, m.name, c.segmentNumber, freshId);
      if e.Err? then (s1, Err(e.failure))
      else ProcessEntry(s1, e.value, c.segmentNumber.value, c.requested, m.payload, digest)
  }

  /** What stays true between requests, with `base[id]` the bytes the file
      of transfer `id` held when the transfer was created (a caller-chosen
      id may reuse an existing directory): no marker without its
      directory; a registered transfer has a marker exactly when it has a
      directory; and its file is the base followed by every hashed byte. */
  ghost predicate Invariant(s: State, base: map<Id, seq<byte>>)
  {
    (forall id | id in s.markers :: id in s.dirs)
    && (forall id | id in s.sessions :: id in base && (id in s.markers <==> id in s.dirs))
    && (forall id | id in s.sessions && id in s.dirs :: FileOf(s, id) == base[id] + s.sessions[id].hashed)
  }

  /** The base map after a request: a transfer the request may create
      starts from what its file already held. */
  function NewBaseline(s: State, base: map<Id, seq<byte>>, m: Message, freshId: Id): map<Id, seq<byte>>
  {
    var id := ChosenId(m.fileId, freshId);
    if id in s.sessions then base
    else base[id := if id in s.dirs && m.name.Some? then Content(s.dirs[id], m.name.value) else []]
  }
}
