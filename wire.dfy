/** Values that travel in a file store request and its response, the
    reasons a request is refused, and the integer conversion that both
    request handlers apply to their numeric fields. */
module Wire {

  datatype Option<T> = None | Some(value: T)

  newtype byte = x: int | 0 <= x < 256

  /** A request field that a handler converts to an integer: absent from
      the request, an explicit null, a number, or a string. */
  datatype Field = Absent | Null | Number(n: int) | Text(t: string)

  /** One file store request. The string-valued fields hold None when the
      key is absent or null (what `dict.get` returns); `hash` is the field
      `hash_sha256` for the file store manager and `hash` for the request
      callback. The payload is the raw segment. */
  datatype Message = Message(
    fileId: Option<string>,
    name: Option<string>,
    segmentNumber: Field,
    size: Field,
    hash: Option<string>,
    result: Option<string>,
    payload: seq<byte>)

  /** Why a request is refused: one constructor per place that raises. */
  datatype Failure =
    | NotAnInt(key: string)              // int() rejected the value of `key`
    | MissingName                        // no usable `name`
    | MissingFileId                      // no `file_id` for a segment other than 1
    | MissingCancelId                    // `cancel` without a `file_id`
    | MissingSize                        // `store` without `size`
    | MissingHash                        // `store` without a non-empty hash
    | UnexpectedResult(value: string)    // `result` neither `store` nor `cancel`
    | SegmentNumberMissing               // `None > 1` compared an absent segment number
    | UnknownFileId(id: string)          // no registered transfer under the id
    | IdInUse(id: string)                // a new transfer's id is already registered
    | WorkFileExists(id: string)         // a new transfer's id already has a marker
    | NameNotText                        // the path of a new transfer joined with no name
    | DirectoryExists(id: string)        // the directory of a new transfer already exists
    | UnexpectedSegment(expected: int, received: Option<int>)
    | NoSuchDirectory(id: string)        // the transfer's directory is gone
    | IntegrityMismatch(id: string)      // stored size or hash differs from the declared one

  datatype Outcome<T> = Ok(value: T) | Err(failure: Failure)

  const FileIdKey := "file_id"
  const SegmentNumberKey := "segment_number"
  const SegmentsReceivedKey := "segments_received"
  const SizeKey := "size"
  const ResultKey := "result"
  const StoreLabel := "store"
  const CancelLabel := "cancel"

  /** Python truthiness of an optional string: present and not empty. */
  predicate Truthy(s: Option<string>)
  {
    s.Some? && s.value != ""
  }

  predicate IsDigit(c: char)
  {
    '0' <= c <= '9'
  }

  predicate AllDigits(s: string)
  {
    forall i | 0 <= i < |s| :: IsDigit(s[i])
  }

  /** The value of a string of decimal digits. */
  function DigitsValue(s: string): nat
    requires AllDigits(s)
  {
    if s == [] then 0
    else DigitsValue(s[..|s| - 1]) * 10 + (s[|s| - 1] as int - '0' as int)
  }

  /** `int(text)` for a decimal literal with an optional sign; None where
      int() raises ValueError. */
  function ParseInt(t: string): Option<int>
  {
    if |t| > 1 && (t[0] == '-' || t[0] == '+') && AllDigits(t[1..]) then
      Some(if t[0] == '-' then 0 - DigitsValue(t[1..]) as int else DigitsValue(t[1..]))
    else if |t| > 0 && AllDigits(t) then
      Some(DigitsValue(t))
    else
      None
  }

  /** The decimal rendering of a natural number, as a client sends it. */
  function ShowNat(n: nat): (s: string)
    ensures |s| > 0 && AllDigits(s)
  {
    if n < 10 then [('0' as int + n) as char]
    else ShowNat(n / 10) + [('0' as int + n % 10) as char]
  }

  function ShowInt(n: int): string
  {
    if n < 0 then "-" + ShowNat(-n) else ShowNat(n)
  }

  lemma {:induction false} DigitsValueShowNat(n: nat)
    ensures DigitsValue(ShowNat(n)) == n
  {
    if n >= 10 {
      var s := ShowNat(n);
      assert s[..|s| - 1] == ShowNat(n / 10);
      DigitsValueShowNat(n / 10);
    }
  }

  /** Every integer written in decimal reads back as itself. */
  lemma ParseShowInt(n: int)
    ensures ParseInt(ShowInt(n)) == Some(n)
  {
    if n < 0 {
      DigitsValueShowNat(-n);
      assert ShowInt(n)[1..] == ShowNat(-n);
    } else {
      DigitsValueShowNat(n);
    }
  }

  /** `_get_value_as_int`: None when the key is absent; the integer for a
      number or a decimal string; a failure for a null (TypeError) or a
      string int() rejects (ValueError). */
  function AsInt(f: Field, key: string): (r: Outcome<Option<int>>)
    ensures r == Ok(None) <==> f == Absent
    ensures f.Number? ==> r == Ok(Some(f.n))
    ensures f.Text? ==> (r.Ok? <==> ParseInt(f.t).Some?)
    ensures r.Ok? && r.value.Some? && f.Text? ==> ParseInt(f.t) == r.value
    ensures r.Err? <==> (f == Null || (f.Text? && ParseInt(f.t).None?))
    ensures r.Err? ==> r.failure == NotAnInt(key)
  {
    match f
    case Absent => Ok(None)
    case Null => Err(NotAnInt(key))
    case Number(n) => Ok(Some(n))
    case Text(t) =>
      match ParseInt(t)
      case Some(n) => Ok(Some(n))
      case None => Err(NotAnInt(key))
  }

  /** A segment number or size sent as a decimal string is read as the
      number itself. */
  lemma AsIntOfDecimal(n: int, key: string)
    ensures AsInt(Text(ShowInt(n)), key) == Ok(Some(n))
  {
    ParseShowInt(n);
  }
}
