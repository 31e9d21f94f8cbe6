/** The request callback (`FileStoreRequestCallback.on_request`) as
    functions from the state before a request to the state after it and
    the outcome. It runs the transfer protocol with its own rules: the
    presence of `file_id` decides between creating and looking up a
    transfer, every request names the file, and a completed transfer stays
    registered. The class in HandlerCallback performs the same steps in
    place and is proved equal to these functions. */
module HandlerModel {
  import opened Wire
  import opened Storage
  import StoreModel

  /** `_get_requested_file_result`: an absent or empty `result` asks for
      nothing; `cancel` needs a file id; `store` needs a size and a
      non-empty hash; any other value is refused. */
  function RequestedFileResult(result: Option<string>, fileId: Option<string>, size: Option<int>,
                               hash: Option<string>): (r: Outcome<RequestedResult>)
    ensures r == Ok(NoResult) <==> !Truthy(result)
    ensures r == Ok(Cancel) <==> result == Some(CancelLabel) && Truthy(fileId)
    ensures result == Some(CancelLabel) && !Truthy(fileId) ==> r == Err(MissingCancelId)
    ensures r.Ok? && r.value.Store? <==> result == Some(StoreLabel) && size.Some? && Truthy(hash)
    ensures r.Ok? && r.value.Store? ==> r.value == Store(size.value, hash.value)
    ensures result == Some(StoreLabel) && size.None? ==> r == Err(MissingSize)
    ensures result == Some(StoreLabel) && size.Some? && !Truthy(hash) ==> r == Err(MissingHash)
    ensures Truthy(result) && result.value != StoreLabel && result.value != CancelLabel ==>
              r == Err(UnexpectedResult(result.value))
  {
    if !Truthy(result) then Ok(NoResult)
    else if result.value == CancelLabel then
      if !Truthy(fileId) then Err(MissingCancelId) else Ok(Cancel)
    else if result.value == StoreLabel then
      if size.None? then Err(MissingSize)
      else if !Truthy(hash) then Err(MissingHash)
      else Ok(Store(size.value, hash.value))
    else Err(UnexpectedResult(result.value))
  }

  /** The checks `on_request` makes before touching any state, in its
      order: a non-empty name, an integer size, a well-formed requested
      result, an integer (or absent) segment number. */
  function CheckRequest(m: Message): (r: Outcome<StoreModel.Checked>)
    ensures r.Ok? <==>
              Truthy(m.name)
              && AsInt(m.size, SizeKey).Ok?
              && RequestedFileResult(m.result, m.fileId, AsInt(m.size, SizeKey).value, m.hash).Ok?
              && AsInt(m.segmentNumber, SegmentNumberKey).Ok?
    ensures r.Ok? ==>
              r.value.segmentNumber == AsInt(m.segmentNumber, SegmentNumberKey).value
              && r.value.requested == RequestedFileResult(m.result, m.fileId, AsInt(m.size, SizeKey).value, m.hash).value
    ensures !Truthy(m.name) ==> r == Err(MissingName)
    ensures Truthy(m.name) && AsInt(m.size, SizeKey).Err? ==> r == Err(NotAnInt(SizeKey))
    ensures Truthy(m.name) && AsInt(m.size, SizeKey).Ok?
            && RequestedFileResult(m.result, m.fileId, AsInt(m.size, SizeKey).value, m.hash).Err? ==>
              r == Err(RequestedFileResult(m.result, m.fileId, AsInt(m.size, SizeKey).value, m.hash).failure)
    ensures Truthy(m.name) && AsInt(m.size, SizeKey).Ok?
            && RequestedFileResult(m.result, m.fileId, AsInt(m.size, SizeKey).value, m.hash).Ok?
            && AsInt(m.segmentNumber, SegmentNumberKey).Err? ==>
              r == Err(NotAnInt(SegmentNumberKey))
  {
    if !Truthy(m.name) then Err(MissingName)
    else
      match AsInt(m.size, SizeKey)
      case Err(f) => Err(f)
      case Ok(size) =>
        match RequestedFileResult(m.result, m.fileId, size, m.hash)
        case Err(f) => Err(f)
        case Ok(requested) =>
          match AsInt(m.segmentNumber, SegmentNumberKey)
          case Err(f) => Err(f)
          case Ok(segmentNumber) => Ok(StoreModel.Checked(segmentNumber, requested))
  }

  /** `_get_file_entry`. With a file id, look it up and change nothing.
      Without one, take the freshly generated id, create its marker, then
      its directory, which must not exist yet, and register a new entry
      (replacing any entry under that id). */
  function GetFileEntry(s: State, fileId: Option<string>, name: string, freshId: Id): (out: (State, Outcome<Id>))
    ensures out.1.Ok? ==> out.1.value in out.0.sessions
    ensures Truthy(fileId) ==>
              out.0 == s && (out.1.Ok? <==> fileId.value in s.sessions)
              && (out.1.Ok? ==> out.1.value == fileId.value)
              && (out.1.Err? ==> out.1.failure == UnknownFileId(fileId.value))
    ensures !Truthy(fileId) && freshId in s.dirs ==>
              out == (s.(markers := s.markers + {freshId}), Err(DirectoryExists(freshId)))
    ensures !Truthy(fileId) && freshId !in s.dirs ==>
              out.1 == Ok(freshId)
              && out.0 == State(s.sessions[freshId := Entry(name, 0, [])], s.markers + {freshId},
                                s.dirs[freshId := map[]])
  {
    if Truthy(fileId) then
      (s, if fileId.value in s.sessions then Ok(fileId.value) else Err(UnknownFileId(fileId.value)))
    else
      var s1 := s.(markers := s.markers + {freshId});
      if freshId in s.dirs then (s1, Err(DirectoryExists(freshId)))
      else (s1.(dirs := s.dirs[freshId := map[]], sessions := s.sessions[freshId := Entry(name, 0, [])]),
            Ok(freshId))
  }

  /** The response `_process_segment` builds: `file_id`, then `result`
      when the transfer was completed, then `segments_received`. */
  function Response(id: Id, fileResult: Option<string>, count: int): (d: map<string, Field>)
    ensures FileIdKey in d && d[FileIdKey] == Text(id)
    ensures SegmentsReceivedKey in d && d[SegmentsReceivedKey] == Number(count)
    ensures ResultKey in d <==> fileResult.Some?
    ensures ResultKey in d ==> d[ResultKey] == Text(fileResult.value)
    ensures d.Keys <= {FileIdKey, SegmentsReceivedKey, ResultKey}
  {
    var d := map[FileIdKey := Text(id)];
    var d := if fileResult.Some? then d[ResultKey := Text(fileResult.value)] else d;
    d[SegmentsReceivedKey := Number(count)]
  }

  /** `_process_segment`: require the next consecutive segment number
      (except for cancel; an absent number never matches), counting it in
      place, then complete the transfer or append the segment, and report
      the entry's count. Nothing already changed is undone when a step
      fails. */
  function ProcessSegment(s: State, id: Id, segmentNumber: Option<int>, requested: RequestedResult,
                          payload: seq<byte>, digest: seq<byte> -> string): (out: (State, Outcome<map<string, Field>>))
    requires id in s.sessions
    ensures id in out.0.sessions && out.0.sessions.Keys == s.sessions.Keys
    ensures var received := s.sessions[id].segmentsReceived;
            !requested.Cancel? && segmentNumber != Some(received + 1) ==>
              out == (s, Err(UnexpectedSegment(received + 1, segmentNumber)))
    ensures out.1.Ok? ==>
              FileIdKey in out.1.value && out.1.value[FileIdKey] == Text(id)
              && SegmentsReceivedKey in out.1.value
              && out.1.value[SegmentsReceivedKey]
                 == Number(s.sessions[id].segmentsReceived + (if requested.Cancel? then 0 else 1))
              && (ResultKey in out.1.value <==> !requested.NoResult?)
    ensures out.0.markers - {id} == s.markers - {id} && OnlyTouches(s, out.0, id)
  {
    var received := s.sessions[id].segmentsReceived;
    if !requested.Cancel? && segmentNumber != Some(received + 1) then
      (s, Err(UnexpectedSegment(received + 1, segmentNumber)))
    else
      var s1 := if requested.Cancel? then s else Counted(s, id);
      if requested.NoResult? then
        var (s2, w) := WriteSegment(s1, id, payload);
        (s2, if w.Err? then Err(w.failure) else Ok(Response(id, None, s2.sessions[id].segmentsReceived)))
      else
        var (s2, d) := Finish(s1, id, requested, payload, digest);
        (s2, if d.Err? then Err(d.failure) else Ok(Response(id, Some(d.value), s2.sessions[id].segmentsReceived)))
  }

  /** `on_request`, up to sending the response: check the request, find or
      create the transfer, process the segment; the outcome is the
      response dictionary or the reason for the error response. */
  function OnRequest(s: State, m: Message, freshId: Id, digest: seq<byte> -> string)
    : (out: (State, Outcome<map<string, Field>>))
    ensures CheckRequest(m).Err? ==> out == (s, Err(CheckRequest(m).failure))
    ensures s.sessions.Keys <= out.0.sessions.Keys
    ensures out.1.Ok? ==>
              FileIdKey in out.1.value && out.1.value[FileIdKey] == Text(StoreModel.ChosenId(m.fileId, freshId))
    ensures var id := StoreModel.ChosenId(m.fileId, freshId);
            out.0.markers - {id} == s.markers - {id} && OnlyTouches(s, out.0, id)
  {
    match CheckRequest(m)
    case Err(f) => (s, Err(f))
    case Ok(c) =>
      var (s1, e) := GetFileEntry(s, m.fileId, m.name.value, freshId);
      if e.Err? then (s1, Err(e.failure))
      else ProcessSegment(s1, e.value, c.segmentNumber, c.requested, m.payload, digest)
  }

  /** What stays true between requests: no marker without its directory,
      and the file of every registered transfer whose directory exists
      holds exactly the bytes fed to its hash accumulator. */
  predicate Invariant(s: State)
  {
    (forall id | id in s.markers :: id in s.dirs)
    && (forall id | id in s.sessions && id in s.dirs :: FileOf(s, id) == s.sessions[id].hashed)
  }
}
