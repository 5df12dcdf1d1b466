/** The length-prefixed byte form of an audit entry that is hashed (nine
    fields) and signed (ten fields, the tenth being the hash). */
module AuditEntry {
  import opened Common

  /** The action strings the log accepts; Unknown is any other string. */
  datatype Action = Create | Read | Update | Delete | Rollback | RotateKek | RotateDek | TokenIssue | TokenRevoke
                  | Unknown(text: Bytes)

  /** The result strings the log accepts; Other is any other string. */
  datatype Outcome = Succeeded | Failed | Other(text: Bytes)

  function ActionText(action: Action): Bytes {
    match action
    case Create => Text("CREATE")
    case Read => Text("READ")
    case Update => Text("UPDATE")
    case Delete => Text("DELETE")
    case Rollback => Text("ROLLBACK")
    case RotateKek => Text("ROTATE_KEK")
    case RotateDek => Text("ROTATE_DEK")
    case TokenIssue => Text("TOKEN_ISSUE")
    case TokenRevoke => Text("TOKEN_REVOKE")
    case Unknown(text) => text
  }

  function OutcomeText(result: Outcome): Bytes {
    match result
    case Succeeded => Text("SUCCESS")
    case Failed => Text("FAILURE")
    case Other(text) => text
  }

  /** The hashed part of one entry, as a caller passes it. `version` is not
      positive when the entry has none; an empty actor means the default. */
  datatype Entry = Entry(
    timestamp: Bytes, id: int64, action: Action, actor: Bytes, target: Bytes,
    version: int32, result: Outcome, prev: Digest)

  function Domain(): Bytes { Text("SM-AUDIT-v1") }

  function DefaultActor(): (r: Bytes)
    ensures r != []
  {
    Text("user:default")
  }

  predicate Valid(e: Entry) {
    e.timestamp != [] && e.id >= 1 && !e.action.Unknown? && e.target != [] && !e.result.Other?
  }

  function ActorOrDefault(actor: Bytes): Bytes {
    if actor == [] then DefaultActor() else actor
  }

  /** What an entry means once defaults are applied. */
  function Normal(e: Entry): Entry {
    e.(actor := ActorOrDefault(e.actor), version := if e.version > 0 then e.version else 0)
  }

  function VersionBytes(version: int32): Bytes {
    if version > 0 then Le(version, 8) else []
  }

  function HashBytes(hash: Option<Digest>): seq<Bytes> {
    if hash.Some? then [hash.value] else []
  }

  function Fields(e: Entry, hash: Option<Digest>): (r: seq<Bytes>)
    requires e.id >= 1
    ensures |r| == if hash.Some? then 10 else 9
  {
    [Domain(), Le(e.id, 8), e.timestamp, ActionText(e.action), ActorOrDefault(e.actor), e.target,
     VersionBytes(e.version), OutcomeText(e.result), e.prev] + HashBytes(hash)
  }

  function Field(data: Bytes): Bytes { Le(|data|, 4) + data }

  function EncodeFields(fields: seq<Bytes>): Bytes {
    if fields == [] then [] else EncodeFields(fields[..|fields| - 1]) + Field(fields[|fields| - 1])
  }

  /** The bytes that are hashed (hash is None) or signed. */
  function Encode(e: Entry, hash: Option<Digest>): Bytes
    requires e.id >= 1
  {
    EncodeFields(Fields(e, hash))
  }

  /** Every field length fits the 32-bit prefix. */
  predicate Fits(e: Entry) {
    |e.timestamp| <= UINT32_MAX && |e.actor| <= UINT32_MAX && |e.target| <= UINT32_MAX
  }

  predicate Encodable(e: Entry) { Valid(e) && Fits(e) }

  // ---------------------------------------------------------------- decoding

  function DecodeFields(b: Bytes): Option<seq<Bytes>>
    decreases |b|
  {
    if b == [] then Some([])
    else if |b| < 4 then None
    else
      var n := FromLe(b[..4]);
      if |b| - 4 < n then None
      else
        match DecodeFields(b[4 + n..])
        case None => None
        case Some(rest) => Some([b[4..4 + n]] + rest)
  }

  predicate AllShort(fields: seq<Bytes>) {
    forall i :: 0 <= i < |fields| ==> |fields[i]| <= UINT32_MAX
  }

  lemma {:induction false} EncodeFront(fields: seq<Bytes>)
    requires fields != []
    ensures EncodeFields(fields) == Field(fields[0]) + EncodeFields(fields[1..])
  {
    var n := |fields| - 1;
    var init, tail, last := fields[..n], fields[1..], Field(fields[n]);
    if n == 0 {
      assert init == [] && tail == [];
    } else {
      EncodeFront(init);
      var first, middle := Field(fields[0]), EncodeFields(init[1..]);
      assert tail[..n - 1] == init[1..] && tail[n - 1] == fields[n];
      assert EncodeFields(tail) == middle + last;
      assert EncodeFields(fields) == (first + middle) + last;
      assert (first + middle) + last == first + (middle + last);
    }
  }

  /** Any list of fields is read back from its encoding. */
  lemma {:induction false} DecodeOfEncode(fields: seq<Bytes>)
    requires AllShort(fields)
    ensures DecodeFields(EncodeFields(fields)) == Some(fields)
  {
    if fields != [] {
      var b, n := EncodeFields(fields), |fields[0]|;
      EncodeFront(fields);
      WidthLimits();
      FromLeOfLe(n, 4);
      assert b[..4] == Le(n, 4);
      assert b[4..4 + n] == fields[0];
      assert b[4 + n..] == EncodeFields(fields[1..]);
      DecodeOfEncode(fields[1..]);
      assert fields == [fields[0]] + fields[1..];
    }
  }

  function ParseAction(text: Bytes): Action {
    if text == ActionText(Create) then Create
    else if text == ActionText(Read) then Read
    else if text == ActionText(Update) then Update
    else if text == ActionText(Delete) then Delete
    else if text == ActionText(Rollback) then Rollback
    else if text == ActionText(RotateKek) then RotateKek
    else if text == ActionText(RotateDek) then RotateDek
    else if text == ActionText(TokenIssue) then TokenIssue
    else if text == ActionText(TokenRevoke) then TokenRevoke
    else Unknown(text)
  }

  function ParseOutcome(text: Bytes): Outcome {
    if text == OutcomeText(Succeeded) then Succeeded
    else if text == OutcomeText(Failed) then Failed
    else Other(text)
  }

  /** The nine action strings are pairwise different, and so are the two results. */
  lemma {:induction false} TextsRoundTrip(action: Action, result: Outcome)
    requires !action.Unknown? && !result.Other?
    ensures ParseAction(ActionText(action)) == action && |ActionText(action)| <= 12
    ensures ParseOutcome(OutcomeText(result)) == result && |OutcomeText(result)| == 7
  {
    assert ActionText(Create)[0] == 67 && ActionText(Update)[0] == 85 && ActionText(Delete)[0] == 68;
    assert ActionText(RotateKek)[7] == 75 && ActionText(RotateDek)[7] == 68;
    assert OutcomeText(Succeeded)[0] == 83 && OutcomeText(Failed)[0] == 70;
  }

  /** The entry read back from hashed or signed bytes. */
  function DecodeEntry(b: Bytes): Option<(Entry, Option<Digest>)> {
    match DecodeFields(b)
    case None => None
    case Some(f) =>
      if |f| != 9 && |f| != 10 then None
      else if f[0] != Domain() || |f[8]| != 32 || (|f| == 10 && |f[9]| != 32) then None
      else if FromLe(f[1]) > INT64_MAX || FromLe(f[6]) > INT_MAX then None
      else
        Some((Entry(f[2], FromLe(f[1]), ParseAction(f[3]), f[4], f[5], FromLe(f[6]), ParseOutcome(f[7]), f[8]),
              if |f| == 10 then Some(f[9]) else None))
  }

  /** The encoding of every encodable entry is read back to that entry with
      the defaults applied, together with the presence and value of the hash. */
  lemma {:induction false} EntryRoundTrip(e: Entry, hash: Option<Digest>)
    requires Encodable(e)
    ensures DecodeEntry(Encode(e, hash)) == Some((Normal(e), hash))
  {
    FieldLengths(e, hash);
    DecodeOfEncode(Fields(e, hash));
    TextsRoundTrip(e.action, e.result);
    WidthLimits();
    FromLeOfLe(e.id, 8);
    if e.version > 0 {
      FromLeOfLe(e.version, 8);
    }
  }

  /** So equal bytes mean equal entries: in particular a nine-field (hashed)
      encoding never equals a ten-field (signed) one. */
  lemma {:induction false} EncodeInjective(e: Entry, hash: Option<Digest>, e': Entry, hash': Option<Digest>)
    requires Encodable(e) && Encodable(e')
    requires Encode(e, hash) == Encode(e', hash')
    ensures Normal(e) == Normal(e') && hash == hash'
  {
    EntryRoundTrip(e, hash);
    EntryRoundTrip(e', hash');
  }

  /** Conversely the defaults are the only thing the encoding forgets. */
  lemma {:induction false} NormalEncodesAlike(e: Entry, hash: Option<Digest>)
    requires e.id >= 1
    ensures Encode(Normal(e), hash) == Encode(e, hash)
  {
    assert Fields(Normal(e), hash) == Fields(e, hash);
  }

  // ---------------------------------------------------------------- the two passes

  /** One step of the first pass: audit_field_size, then audit_checked_add. */
  method AddFieldSize(total: nat, length: nat) returns (status: Status, sum: nat)
    ensures status == Ok <==> length <= UINT32_MAX && total + 4 + length <= SIZE_MAX
    ensures status == Ok ==> sum == total + 4 + length
  {
    sum := total;
    if length > UINT32_MAX {
      return InvalidArgument, sum;
    }
    var encoded := 4 + length;
    if total > SIZE_MAX - encoded {
      return InvalidArgument, sum;
    }
    return Ok, total + encoded;
  }

  /** audit_append_field: writes the prefix and the data at the cursor. */
  method AppendField(buf: array<byte>, cursor: nat, data: Bytes, ghost fields: seq<Bytes>, ghost k: nat)
    returns (next: nat)
    requires cursor + 4 + |data| <= buf.Length
    requires k < |fields| && fields[k] == data
    requires buf[..cursor] == EncodeFields(fields[..k])
    modifies buf
    ensures next == cursor + 4 + |data|
    ensures buf[..next] == EncodeFields(fields[..k + 1])
  {
    WriteLe(buf, cursor, |data|, 4);
    assert buf[..cursor + 4] == buf[..cursor] + buf[cursor..cursor + 4];
    next := cursor + 4;
    CopyInto(buf, next, data);
    next := next + |data|;
    assert fields[..k + 1][..k] == fields[..k];
  }

  function EncodedSize(fields: seq<Bytes>): nat {
    if fields == [] then 0 else EncodedSize(fields[..|fields| - 1]) + 4 + |fields[|fields| - 1]|
  }

  lemma {:induction false} EncodedSizeBound(fields: seq<Bytes>)
    requires AllShort(fields)
    ensures EncodedSize(fields) <= |fields| * (4 + UINT32_MAX)
  {
    if fields != [] {
      EncodedSizeBound(fields[..|fields| - 1]);
    }
  }

  lemma {:induction false} EncodedSizePrefix(fields: seq<Bytes>, k: nat)
    requires k < |fields|
    ensures EncodedSize(fields[..k + 1]) == EncodedSize(fields[..k]) + 4 + |fields[k]|
    ensures EncodedSize(fields[..k + 1]) <= EncodedSize(fields)
    decreases |fields| - k
  {
    assert fields[..k + 1][..k] == fields[..k];
    if k + 1 < |fields| {
      EncodedSizePrefix(fields, k + 1);
    } else {
      assert fields[..k + 1] == fields;
    }
  }

  /** The first pass over the field list. */
  method Measure(fields: seq<Bytes>) returns (status: Status, total: nat)
    requires |fields| <= 10
    ensures status == (if AllShort(fields) then Ok else InvalidArgument)
    ensures status == Ok ==> total == EncodedSize(fields)
  {
    total := 0;
    for k := 0 to |fields|
      invariant AllShort(fields[..k])
      invariant total == EncodedSize(fields[..k])
    {
      EncodedSizePrefix(fields, k);
      EncodedSizeBound(fields[..k]);
      status, total := AddFieldSize(total, |fields[k]|);
      if status != Ok {
        return InvalidArgument, total;
      }
    }
    status := Ok;
    assert fields[..|fields|] == fields;
  }

  /** audit_build_entry_bytes. The first pass sums the field sizes, the second
      writes them through a cursor. It succeeds exactly on encodable entries:
      the size_t overflow check never fires, no write leaves the buffer, and
      the last cursor is the computed total. */
  method BuildEntryBytes(e: Entry, hash: Option<Digest>) returns (status: Status, bytes: array<byte>)
    ensures status == (if Encodable(e) then Ok else InvalidArgument)
    ensures fresh(bytes)
    ensures status == Ok ==> bytes[..] == Encode(e, hash)
  {
    bytes := new byte[0];
    if e.timestamp == [] || e.id < 1 || e.action.Unknown? || e.target == [] || e.result.Other? {
      return InvalidArgument, bytes;
    }
    var fields := Fields(e, hash);
    FieldLengths(e, hash);
    var total;
    status, total := Measure(fields);
    if status != Ok {
      return InvalidArgument, bytes;
    }
    bytes := new byte[total];
    var cursor := 0;
    for k := 0 to |fields|
      invariant cursor == EncodedSize(fields[..k]) <= bytes.Length
      invariant bytes[..cursor] == EncodeFields(fields[..k])
    {
      EncodedSizePrefix(fields, k);
      cursor := AppendField(bytes, cursor, fields[k], fields, k);
    }
    assert fields[..|fields|] == fields;
    assert cursor == total && bytes[..] == bytes[..cursor];
  }

  lemma {:induction false} FieldLengths(e: Entry, hash: Option<Digest>)
    requires Valid(e)
    ensures AllShort(Fields(e, hash)) <==> Fits(e)
  {
    var f := Fields(e, hash);
    TextsRoundTrip(e.action, e.result);
    assert f[2] == e.timestamp && f[5] == e.target;
    assert f[4] == ActorOrDefault(e.actor);
  }
}
