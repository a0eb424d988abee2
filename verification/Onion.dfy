/**
 Layered cells: `wrap_payload_for_hop` and `unwrap_response_from_hop` of `main.rs`.
 A cell for depth d carries one layer for each of the first d + 1 session keys.
 */
module Onion {
  import opened Prelude
  import opened KeyExchange

  /** The wrapper a layer adds: an empty Data command around the next cell. */
  function Wrapper(inner: Bytes): RelayCellPayload {
    RelayCellPayload(Data([]), None, Some(inner))
  }

  function Plain(command: RelayCommand): RelayCellPayload {
    RelayCellPayload(command, None, None)
  }

  /** What the holder of `key` reads in a cell. */
  function OpenCell(s: Suite, key: Bytes, cell: Bytes): Result<RelayCellPayload> {
    match Decrypt(s, key, cell)
    case Err => Err
    case Ok(plain) =>
      match s.deserialize(plain)
      case None => Err
      case Some(p) => Ok(p)
  }

  method SealCell(s: Suite, key: Bytes, payload: RelayCellPayload) returns (cell: Bytes)
    requires s.Lawful()
    ensures OpenCell(s, key, cell) == Ok(payload)
  {
    cell := Encrypt(s, key, s.serialize(payload));
  }

  /**
   `cell` is `payload` under one layer per key, outermost first: each key but the last
   opens to nothing but a wrapper around the onion for the remaining keys.
   */
  ghost predicate IsOnion(s: Suite, keys: seq<Bytes>, payload: RelayCellPayload, cell: Bytes) {
    |keys| > 0 &&
    var p := OpenCell(s, keys[0], cell);
    if |keys| == 1 then p == Ok(payload)
    else p.Ok? && p.value.innerCell.Some? && p.value == Wrapper(p.value.innerCell.value)
         && IsOnion(s, keys[1..], payload, p.value.innerCell.value)
  }

  /**
   `trace` is what the holders of `keys` read, in order: the last reads `payload`, every
   earlier one only a wrapper around the onion for the keys after its own.
   */
  ghost predicate Peels(s: Suite, keys: seq<Bytes>, payload: RelayCellPayload, trace: seq<RelayCellPayload>) {
    && |trace| == |keys| > 0
    && trace[|keys| - 1] == payload
    && forall j :: 0 <= j < |keys| - 1 ==>
         && trace[j].innerCell.Some? && trace[j] == Wrapper(trace[j].innerCell.value)
         && IsOnion(s, keys[j + 1..], payload, trace[j].innerCell.value)
  }

  /** A layer peeled in front of a trace that peels the rest. */
  lemma PeelOne(s: Suite, keys: seq<Bytes>, payload: RelayCellPayload, cell: Bytes, rest: seq<RelayCellPayload>)
    requires |keys| > 1 && IsOnion(s, keys, payload, cell) && Peels(s, keys[1..], payload, rest)
    ensures Peels(s, keys, payload, [OpenCell(s, keys[0], cell).value] + rest)
  {
    var trace := [OpenCell(s, keys[0], cell).value] + rest;
    forall j | 0 <= j < |keys| - 1
      ensures trace[j].innerCell.Some? && trace[j] == Wrapper(trace[j].innerCell.value)
      ensures IsOnion(s, keys[j + 1..], payload, trace[j].innerCell.value)
    {
      if j > 0 {
        assert trace[j] == rest[j - 1];
        assert keys[1..][j..] == keys[j + 1..];
      }
    }
  }

  /** `wrap_payload_for_hop`, innermost layer first. */
  method WrapPayloadForHop(s: Suite, sessionKeys: seq<Bytes>, targetDepth: nat, payload: RelayCellPayload)
    returns (encrypted: Bytes)
    requires s.Lawful() && targetDepth < |sessionKeys|
    ensures IsOnion(s, sessionKeys[..targetDepth + 1], payload, encrypted)
  {
    ghost var keys := sessionKeys[..targetDepth + 1];
    encrypted := SealCell(s, sessionKeys[targetDepth], payload);
    for i := targetDepth downto 0
      invariant IsOnion(s, keys[i..], payload, encrypted)
    {
      encrypted := SealCell(s, sessionKeys[i], Wrapper(encrypted));
      assert keys[i..][1..] == keys[i + 1..];
    }
    assert keys[0..] == keys;
  }

  /** What `unwrap_response_from_hop` computes: one key per layer, the last one ends it. */
  ghost function Unwrapped(s: Suite, keys: seq<Bytes>, data: Bytes): Result<RelayCellPayload>
    requires |keys| > 0
  {
    var p := OpenCell(s, keys[0], data);
    if |keys| == 1 || p.Err? then p
    else if p.value.innerCell.None? then Err
    else Unwrapped(s, keys[1..], p.value.innerCell.value)
  }

  method UnwrapResponseFromHop(s: Suite, sessionKeys: seq<Bytes>, targetDepth: nat, encrypted: Bytes)
    returns (r: Result<RelayCellPayload>)
    requires targetDepth < |sessionKeys|
    ensures r == Unwrapped(s, sessionKeys[..targetDepth + 1], encrypted)
  {
    ghost var keys := sessionKeys[..targetDepth + 1];
    var data := encrypted;
    assert keys[0..] == keys;
    for i := 0 to targetDepth
      invariant Unwrapped(s, keys[i..], data) == Unwrapped(s, keys, encrypted)
    {
      var p := OpenCell(s, sessionKeys[i], data);
      assert keys[i..][0] == sessionKeys[i];
      if p.Err? || p.value.innerCell.None? {
        return Err;
      }
      data := p.value.innerCell.value;
      assert keys[i..][1..] == keys[i + 1..];
    }
    assert keys[targetDepth..][0] == sessionKeys[targetDepth];
    r := OpenCell(s, sessionKeys[targetDepth], data);
  }

  /** Unwrapping inverts wrapping, at every depth. */
  lemma {:induction false} OnionUnwraps(s: Suite, keys: seq<Bytes>, payload: RelayCellPayload, cell: Bytes)
    requires IsOnion(s, keys, payload, cell)
    ensures Unwrapped(s, keys, cell) == Ok(payload)
  {
    if |keys| > 1 {
      OnionUnwraps(s, keys[1..], payload, OpenCell(s, keys[0], cell).value.innerCell.value);
    }
  }
}
