/** The state both versions of the file store work on: the in-memory
    registry of open transfers and the storage directory on disk, with the
    steps the two versions share (appending a segment, completing a
    transfer, purging after a restart). */
module Storage {
  import opened Wire

  /** A transfer id; also the name of its marker in the working directory
      and of its subdirectory of the storage directory. */
  type Id = string

  /** The files of one subdirectory of the storage directory, by name. */
  type Folder = map<string, seq<byte>>

  /** A registered transfer. Its directory is the subdirectory named by its
      id and its full path is (id, name); `hashed` holds every byte fed to
      the hash accumulator, whose hex digest is `digest(hashed)`. */
  datatype Entry = Entry(name: string, segmentsReceived: nat, hashed: seq<byte>)

  /** The registry (`_files`), the markers in the working directory, and the
      subdirectories of the storage directory. */
  datatype State = State(sessions: map<Id, Entry>, markers: set<Id>, dirs: map<Id, Folder>)

  /** The requested file result once validated: none (more segments
      follow), store with the declared size and hash, or cancel. */
  datatype RequestedResult = NoResult | Store(size: int, hash: string) | Cancel

  /** The bytes of a file; a file that does not exist reads as empty. */
  function Content(f: Folder, name: string): seq<byte>
  {
    if name in f then f[name] else []
  }

  /** The bytes at a registered transfer's full path. */
  function FileOf(s: State, id: Id): seq<byte>
    requires id in s.sessions && id in s.dirs
  {
    Content(s.dirs[id], s.sessions[id].name)
  }

  /** Nothing outside transfer `id`'s entry and directory differs. */
  predicate OnlyTouches(s: State, t: State, id: Id)
  {
    t.sessions - {id} == s.sessions - {id} && t.dirs - {id} == s.dirs - {id}
  }

  /** `t` is `s` after `segment` went to the end of transfer `id`'s file
      and of its hash accumulator, and nothing else moved. */
  predicate Appended(s: State, t: State, id: Id, segment: seq<byte>)
    requires id in s.sessions && id in s.dirs
  {
    var e := s.sessions[id];
    id in t.sessions && id in t.dirs
    && FileOf(t, id) == FileOf(s, id) + segment
    && t.sessions[id] == Entry(e.name, e.segmentsReceived, e.hashed + segment)
    && t.dirs[id] - {e.name} == s.dirs[id] - {e.name}
    && t.markers == s.markers
    && OnlyTouches(s, t, id)
  }

  /** `_write_file_segment`: open the full path for appending (which
      creates the file) and append the segment to it and to the hash
      accumulator; the count of received segments is put back unchanged.
      Opening fails when the transfer's directory is gone. */
  function WriteSegment(s: State, id: Id, segment: seq<byte>): (out: (State, Outcome<()>))
    requires id in s.sessions
    ensures out.1.Ok? <==> id in s.dirs
    ensures out.1.Err? ==> out.0 == s && out.1.failure == NoSuchDirectory(id)
    ensures out.1.Ok? ==> Appended(s, out.0, id, segment)
  {
    if id !in s.dirs then (s, Err(NoSuchDirectory(id)))
    else
      var e := s.sessions[id];
      var f := s.dirs[id];
      var written := f[e.name := Content(f, e.name) + segment];
      var fed := if |segment| > 0 then e.(hashed := e.hashed + segment) else e;
      (s.(dirs := s.dirs[id := written],
          sessions := s.sessions[id := fed.(segmentsReceived := e.segmentsReceived)]),
       Ok(()))
  }

  /** The entry of `id` with one more segment counted. */
  function Counted(s: State, id: Id): State
    requires id in s.sessions
  {
    s.(sessions := s.sessions[id := s.sessions[id].(segmentsReceived := s.sessions[id].segmentsReceived + 1)])
  }

  /** Whether a store request passes the integrity check: the file, with
      the last segment appended, has the declared size, and either it is
      empty or the hex digest of the accumulated bytes is the declared
      hash. */
  predicate StoreAccepted(s: State, id: Id, size: int, hash: string, lastSegment: seq<byte>,
                          digest: seq<byte> -> string): (ok: bool)
    requires id in s.sessions
    ensures ok ==> id in s.dirs && |FileOf(s, id) + lastSegment| == size
    ensures id in s.dirs && FileOf(s, id) + lastSegment == [] ==> (ok <==> size == 0)
    ensures id in s.dirs && FileOf(s, id) + lastSegment != [] ==>
              (ok <==> |FileOf(s, id) + lastSegment| == size
                       && digest(s.sessions[id].hashed + lastSegment) == hash)
  {
    id in s.dirs
    && var file := FileOf(s, id) + lastSegment;
    |file| == size && (|file| == 0 || digest(s.sessions[id].hashed + lastSegment) == hash)
  }

  /** The body of `_complete_file` both versions share: remove the marker;
      for store, append the last segment and compare size and hash,
      deleting the directory on a mismatch; for cancel, delete the
      directory without writing. The registry entry is left in place. */
  function Finish(s: State, id: Id, requested: RequestedResult, lastSegment: seq<byte>,
                  digest: seq<byte> -> string): (out: (State, Outcome<string>))
    requires id in s.sessions && !requested.NoResult?
    ensures out.0.markers == s.markers - {id}
    ensures out.0.sessions.Keys == s.sessions.Keys
    ensures out.0.sessions[id].segmentsReceived == s.sessions[id].segmentsReceived
    ensures OnlyTouches(s, out.0, id)
    ensures out.1 == Ok(CancelLabel) <==> requested.Cancel? && id in s.dirs
    ensures out.1 == Ok(StoreLabel) <==>
              requested.Store? && StoreAccepted(s, id, requested.size, requested.hash, lastSegment, digest)
    ensures out.1.Ok? ==> out.1 == Ok(StoreLabel) || out.1 == Ok(CancelLabel)
    ensures out.1.Err? ==> id !in out.0.dirs
    ensures requested.Cancel? ==> id !in out.0.dirs && out.0.sessions == s.sessions
    ensures out.1 == Ok(StoreLabel) ==>
              id in out.0.dirs && FileOf(out.0, id) == FileOf(s, id) + lastSegment
  {
    var s1 := s.(markers := s.markers - {id});
    if requested.Store? then
      var (s2, w) := WriteSegment(s1, id, lastSegment);
      if w.Err? then (s2, Err(w.failure))
      else
        var stored := FileOf(s2, id);
        var sizeBad := |stored| != requested.size;
        var hashBad := |stored| != 0 && digest(s2.sessions[id].hashed) != requested.hash;
        if sizeBad || hashBad then (s2.(dirs := s2.dirs - {id}), Err(IntegrityMismatch(id)))
        else (s2, Ok(StoreLabel))
    else
      if id !in s1.dirs then (s1, Err(NoSuchDirectory(id)))
      else (s1.(dirs := s1.dirs - {id}), Ok(CancelLabel))
  }

  /** `_purge_incomplete_files`: every id with a marker loses its
      directory (if any) and its marker. */
  function Swept(s: State): (t: State)
    ensures t.markers == {} && t.sessions == s.sessions
    ensures forall id :: id in t.dirs <==> id in s.dirs && id !in s.markers
    ensures forall id :: id in t.dirs ==> t.dirs[id] == s.dirs[id]
  {
    s.(markers := {}, dirs := s.dirs - s.markers)
  }

  /** The payloads of an upload, one after another. */
  function Concat(payloads: seq<seq<byte>>): seq<byte>
  {
    if payloads == [] then [] else Concat(payloads[..|payloads| - 1]) + payloads[|payloads| - 1]
  }

  lemma ConcatStep(payloads: seq<seq<byte>>, k: nat)
    requires k < |payloads|
    ensures Concat(payloads[..k + 1]) == Concat(payloads[..k]) + payloads[k]
  {
    assert payloads[..k + 1][..k] == payloads[..k];
  }

  /** `s` with transfer `id` open on file `name`, `k` segments counted and
      `data` both written and hashed; before the first segment the file
      does not exist yet. */
  function Open(s: State, id: Id, name: string, k: nat, data: seq<byte>): State
  {
    State(s.sessions[id := Entry(name, k, data)], s.markers + {id},
          s.dirs[id := if k == 0 then map[] else map[name := data]])
  }

  /** Appending to a transfer's single file writes it and feeds the hash
      with the same bytes. */
  lemma WriteSingleFile(s: State, id: Id, name: string, j: nat, data: seq<byte>, f: Folder,
                        markers: set<Id>, payload: seq<byte>)
    requires f.Keys <= {name} && Content(f, name) == data
    ensures WriteSegment(State(s.sessions[id := Entry(name, j, data)], markers, s.dirs[id := f]), id, payload)
         == (State(s.sessions[id := Entry(name, j, data + payload)], markers,
                   s.dirs[id := map[name := data + payload]]), Ok(()))
  {
    var t := State(s.sessions[id := Entry(name, j, data)], markers, s.dirs[id := f]);
    assert f[name := data + payload] == map[name := data + payload];
    assert t.dirs[id := map[name := data + payload]] == s.dirs[id := map[name := data + payload]];
    if payload == [] {
      assert data + payload == data;
      assert t.sessions[id := Entry(name, j, data)] == s.sessions[id := Entry(name, j, data + payload)];
    } else {
      assert t.sessions[id := Entry(name, j, data + payload)] == s.sessions[id := Entry(name, j, data + payload)];
    }
  }

  /** Completing with store, when the declared size and hash are those of
      everything sent, keeps the entry and leaves the file holding exactly
      what was sent. */
  lemma FinishStores(s: State, id: Id, name: string, j: nat, data: seq<byte>, f: Folder, payload: seq<byte>,
                     hash: string, digest: seq<byte> -> string)
    requires id !in s.markers && hash != "" && f.Keys <= {name} && Content(f, name) == data
    requires data + payload != [] ==> digest(data + payload) == hash
    ensures Finish(State(s.sessions[id := Entry(name, j, data)], s.markers + {id}, s.dirs[id := f]),
                   id, Store(|data + payload|, hash), payload, digest)
         == (State(s.sessions[id := Entry(name, j, data + payload)], s.markers,
                   s.dirs[id := map[name := data + payload]]), Ok(StoreLabel))
  {
    assert (s.markers + {id}) - {id} == s.markers;
    WriteSingleFile(s, id, name, j, data, f, s.markers, payload);
  }
}
