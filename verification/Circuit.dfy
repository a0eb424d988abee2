/**
 The telescoping circuit of `main.rs`: hops as objects holding a session key and an
 optional downstream connection, the relay loop of `handle_proxy_circuit`, and the client's
 `build_circuit`. A connection is a direct call: one cell in, at most one cell back.
 */
module Circuit {
  import opened Prelude
  import opened KeyExchange
  import opened Onion

  const CLIENT_ID := "vm1"

  datatype CircuitHop = CircuitHop(nodeId: string, address: string)

  /** What comes back on a connection: a cell, nothing while the peer waits, or a closed stream. */
  datatype Outcome = Reply(cell: Bytes) | Silent | Failed

  /** A proxy, the verifier at the end of chain 1, or the distributed authority at the end of chain 2. */
  datatype Role = Proxy | Verifier | Authority

  class Node {
    /** The name this hop answers with: lower-cased for a proxy, as configured for an endpoint. */
    const responderId: string
    const role: Role
    /** An endpoint's answer to a submitted chain. */
    const verdict: Bytes -> RelayCommand
    /** What the TPM would quote now. */
    var quote: Bytes
    var established: bool
    var sessionKey: Bytes
    var downstream: Node?

    /** The answer to a command addressed to this hop itself, if it gives one. */
    function LocalReply(command: RelayCommand): (r: Option<RelayCommand>)
      reads this
      ensures r.Some? <==> || (role.Proxy? && command.AttestationRequest?)
                           || (role.Verifier? && command.ChainSubmission?)
                           || (role.Authority? && command.Chain2Submission?)
    {
      match role
      case Proxy => if command.AttestationRequest? then Some(AttestationResponse(responderId, quote)) else None
      case Verifier => if command.ChainSubmission? then Some(verdict(command.chain)) else None
      case Authority => if command.Chain2Submission? then Some(verdict(command.chain2)) else None
    }

    /** A payload the hop handles itself, without extending or relaying. */
    predicate Local(payload: RelayCellPayload) {
      role.Proxy? ==> !payload.command.Extend? && payload.innerCell.None?
    }

    /** The first message of `handle_proxy_circuit`, `handle_zts_circuit` and `handle_da_circuit`. */
    method Handshake(s: Suite, extend: ExtendCircuit) returns (r: Result<ExtendedCircuit>)
      requires s.Lawful() && !established
      modifies this`established, this`sessionKey
      ensures r.Ok? <==> |extend.kyberPk| == KYBER_PK_LEN
      ensures r.Ok? ==> established && Agrees(s, "vm1", extend, r.value, sessionKey)
      ensures r.Err? ==> unchanged(this)
    {
      var response := GenerateResponse(s, CLIENT_ID, responderId, extend);
      if response.Err? {
        return Err;
      }
      established, sessionKey := true, response.value.1;
      r := Ok(response.value.0);
    }

    /**
     One turn of the relay loop. `path` is this hop and everything downstream of it, `keys`
     their session keys; the contract speaks of any depth and payload the cell may be an
     onion for.
     */
    method Receive(s: Suite, net: map<string, Node>, cell: Bytes, ghost path: seq<Node>, ghost keys: seq<Bytes>,
                   ghost all: set<Node>, ghost depth: nat, ghost payload: RelayCellPayload)
      returns (out: Outcome, ghost answer: RelayCommand, ghost trace: seq<RelayCellPayload>)
      requires s.Lawful() && net.Values <= all
      requires Chain(path, all) && path[0] == this && keys == KeysOf(path)
      modifies all
      decreases |path|
      ensures WellFormed(all)
      ensures forall n :: n in all && old(n.established) ==> n.established && n.sessionKey == old(n.sessionKey)
      ensures OpenCell(s, keys[0], cell).Err? ==> out.Failed? && unchanged(all)
      // each hop up to the target reads its own layer and no more
      ensures Addressed(s, keys, depth, payload, cell) ==>
                depth < |trace| && Peels(s, keys[..depth + 1], payload, trace[..depth + 1])
      // the target's own answer comes back under the same layers
      ensures Addressed(s, keys, depth, payload, cell) && path[depth].Local(payload) ==>
                && unchanged(all)
                && (match path[depth].LocalReply(payload.command)
                    case None => out == Silent
                    case Some(c) => out.Reply? && IsOnion(s, keys[..depth + 1], Plain(c), out.cell))
      // an Extend for a proxy attaches the addressed idle node behind it
      ensures Addressed(s, keys, depth, payload, cell) && path[depth].role.Proxy? && payload.command.Extend?
                && payload.nextHop.Some? && payload.nextHop.value in net
                && old(!net[payload.nextHop.value].established)
                && |payload.command.extend.kyberPk| == KYBER_PK_LEN ==>
                && Attached(path[depth], net[payload.nextHop.value], all)
                && answer.Extended? && out.Reply?
                && Agrees(s, CLIENT_ID, payload.command.extend, answer.extended, net[payload.nextHop.value].sessionKey)
                && IsOnion(s, keys[..depth + 1], Plain(answer), out.cell)
    {
      assert keys[0] == sessionKey;
      assert depth == 0 ==> keys[..depth + 1] == [sessionKey];
      assert |path| > 1 ==> role.Proxy? && downstream == path[1];
      answer, trace := Data([]), [];
      var plain := OpenCell(s, sessionKey, cell);
      if plain.Err? {
        return Failed, answer, trace;
      }
      var p := plain.value;
      trace := [p];
      if role.Proxy? && p.command.Extend? {
        out, answer := ExtendTo(s, net, p, all);
      } else if role.Proxy? && p.innerCell.Some? {
        if downstream == null {
          return Failed, answer, trace;
        }
        assert keys[1..] == KeysOf(path[1..]);
        assert 0 < depth < |path| ==> keys[..depth + 1][1..] == keys[1..][..depth];
        ghost var rest;
        var back;
        back, answer, rest := downstream.Receive(s, net, p.innerCell.value, path[1..], keys[1..], all,
                                                 if depth > 0 then depth - 1 else 0, payload);
        trace := [p] + rest;
        if depth > 0 && Addressed(s, keys, depth, payload, cell) {
          PeelOne(s, keys[..depth + 1], payload, cell, rest[..depth]);
          assert trace[..depth + 1] == [p] + rest[..depth];
        }
        match back {
          case Reply(inner) =>
            var enc := SealCell(s, sessionKey, Wrapper(inner));
            out := Reply(enc);
          case Silent => out := Silent;
          case Failed => out := Failed;
        }
      } else {
        out, answer := Answer(s, p.command);
      }
    }

    /** The branches of the relay loop that answer for the hop itself. */
    method Answer(s: Suite, command: RelayCommand) returns (out: Outcome, ghost answer: RelayCommand)
      requires s.Lawful()
      ensures match LocalReply(command)
              case None => out == Silent
              case Some(c) => out.Reply? && answer == c && OpenCell(s, sessionKey, out.cell) == Ok(Plain(c))
    {
      answer := Data([]);
      match LocalReply(command)
      case None => out := Silent;
      case Some(c) =>
        answer := c;
        var enc := SealCell(s, sessionKey, Plain(c));
        out := Reply(enc);
    }

    /** The Extend branch of the relay loop. */
    method ExtendTo(s: Suite, net: map<string, Node>, p: RelayCellPayload, ghost all: set<Node>)
      returns (out: Outcome, ghost answer: RelayCommand)
      requires s.Lawful() && net.Values <= all && this in all && established && WellFormed(all) && p.command.Extend?
      modifies all
      ensures WellFormed(all)
      ensures forall n :: n in all && old(n.established) ==> n.established && n.sessionKey == old(n.sessionKey)
      ensures p.nextHop.Some? && p.nextHop.value in net && old(!net[p.nextHop.value].established)
                && |p.command.extend.kyberPk| == KYBER_PK_LEN ==>
                && Attached(this, net[p.nextHop.value], all)
                && answer.Extended? && out.Reply?
                && Agrees(s, CLIENT_ID, p.command.extend, answer.extended, net[p.nextHop.value].sessionKey)
                && OpenCell(s, sessionKey, out.cell) == Ok(Plain(answer))
    {
      answer := Data([]);
      if p.nextHop.None? {
        return Failed, answer;
      }
      if p.nextHop.value !in net || net[p.nextHop.value].established {
        // the connection attempt, or the wait for a busy node, never ends
        return Silent, answer;
      }
      var next := net[p.nextHop.value];
      var extended := next.Handshake(s, p.command.extend);
      if extended.Err? {
        return Failed, answer;
      }
      downstream := next;
      answer := Extended(extended.value);
      var enc := SealCell(s, sessionKey, Plain(Extended(extended.value)));
      out := Reply(enc);
    }
  }

  ghost function KeysOf(path: seq<Node>): (keys: seq<Bytes>)
    reads path
    ensures |keys| == |path|
  {
    seq(|path|, i requires 0 <= i < |path| reads path => path[i].sessionKey)
  }

  ghost predicate Addressed(s: Suite, keys: seq<Bytes>, depth: nat, payload: RelayCellPayload, cell: Bytes) {
    depth < |keys| && IsOnion(s, keys[..depth + 1], payload, cell)
  }

  /** A node that has not shaken hands has no downstream. */
  ghost predicate WellFormed(all: set<Node>)
    reads all
  {
    forall n :: n in all && !n.established ==> n.downstream == null
  }

  /** `path` lists established hops, each but the last a proxy whose downstream is the next. */
  ghost predicate Chain(path: seq<Node>, all: set<Node>)
    reads all, path
  {
    && |path| > 0 && WellFormed(all)
    && (forall i :: 0 <= i < |path| ==> path[i] in all && path[i].established)
    && (forall i :: 0 <= i < |path| - 1 ==> path[i].role.Proxy? && path[i].downstream == path[i + 1])
    && path[|path| - 1].downstream == null
  }

  /** Only `next` became established and only `last`'s downstream changed, to `next`. */
  twostate predicate Attached(last: Node, next: Node, all: set<Node>)
    reads all
  {
    && last in all && next in all && last != next
    && last.downstream == next && last.sessionKey == old(last.sessionKey)
    && last.established == old(last.established) && last.quote == old(last.quote)
    && next.established && next.downstream == old(next.downstream) && next.quote == old(next.quote)
    && forall n :: n in all && n != last && n != next ==> unchanged(n)
  }

  // --- the client ---

  function NodesOf(net: map<string, Node>, hops: seq<CircuitHop>): (nodes: seq<Node>)
    requires forall h :: h in hops ==> h.address in net
    ensures |nodes| == |hops|
  {
    seq(|hops|, i requires 0 <= i < |hops| => net[hops[i].address])
  }

  function IdsOf(hops: seq<CircuitHop>): seq<string> {
    if hops == [] then [] else IdsOf(hops[..|hops| - 1]) + [hops[|hops| - 1].nodeId]
  }

  lemma {:induction false} IdsInOrder(hops: seq<CircuitHop>)
    ensures |IdsOf(hops)| == |hops| && forall i :: 0 <= i < |hops| ==> IdsOf(hops)[i] == hops[i].nodeId
  {
    if hops != [] {
      IdsInOrder(hops[..|hops| - 1]);
    }
  }

  ghost predicate Distinct(nodes: seq<Node>) {
    forall i, j :: 0 <= i < j < |nodes| ==> nodes[i] != nodes[j]
  }

  /**
   The hops are listening, idle and different nodes, and all but the last are proxies:
   otherwise a connection attempt or an Extend is never answered.
   */
  ghost predicate Ready(nodes: seq<Node>, all: set<Node>)
    reads all, nodes
  {
    && WellFormed(all) && Distinct(nodes)
    && (forall i :: 0 <= i < |nodes| ==> nodes[i] in all && !nodes[i].established)
    && (forall i :: 0 <= i < |nodes| - 1 ==> nodes[i].role.Proxy?)
  }

  /** `do_extend_direct`. */
  method ExtendDirect(s: Suite, entry: Node, targetId: string) returns (r: Result<Bytes>)
    requires s.Lawful() && !entry.established
    modifies entry`established, entry`sessionKey
    ensures entry.established && r == Ok(entry.sessionKey)
  {
    var extend, kyberSk, x25519Secret := GenerateInit(s, targetId);
    var extended := entry.Handshake(s, extend);
    if extended.Err? {
      return Err;
    }
    r := CompleteKeyExchange(s, CLIENT_ID, extend, extended.value, kyberSk, x25519Secret);
  }

  /** The Extend cell of `do_extend_relay`, through the hops already in the circuit, and its answer. */
  method SendExtend(s: Suite, net: map<string, Node>, entry: Node, sessionKeys: seq<Bytes>, lastHopDepth: nat,
                    extend: ExtendCircuit, targetAddr: string, ghost path: seq<Node>, ghost all: set<Node>)
    returns (r: Result<ExtendedCircuit>)
    requires s.Lawful() && net.Values <= all && targetAddr in net && !net[targetAddr].established
    requires Chain(path, all) && path[0] == entry && sessionKeys == KeysOf(path)
    requires lastHopDepth == |path| - 1 && path[lastHopDepth].role.Proxy? && |extend.kyberPk| == KYBER_PK_LEN
    modifies all
    ensures WellFormed(all) && Attached(path[lastHopDepth], net[targetAddr], all)
    ensures r.Ok? && Agrees(s, CLIENT_ID, extend, r.value, net[targetAddr].sessionKey)
  {
    var payload := RelayCellPayload(Extend(extend), Some(targetAddr), None);
    var encrypted := WrapPayloadForHop(s, sessionKeys, lastHopDepth, payload);
    var out, answer, trace := entry.Receive(s, net, encrypted, path, sessionKeys, all, lastHopDepth, payload);
    if !out.Reply? {
      return Err;
    }
    var response := UnwrapResponseFromHop(s, sessionKeys, lastHopDepth, out.cell);
    OnionUnwraps(s, sessionKeys[..lastHopDepth + 1], Plain(answer), out.cell);
    if response.Err? || !response.value.command.Extended? {
      return Err;
    }
    r := Ok(response.value.command.extended);
  }

  lemma ChainGrows(path: seq<Node>, next: Node, all: set<Node>)
    requires |path| > 0 && WellFormed(all)
    requires forall i :: 0 <= i < |path| ==> path[i] in all && path[i].established && path[i].role.Proxy?
    requires forall i :: 0 <= i < |path| - 1 ==> path[i].downstream == path[i + 1]
    requires path[|path| - 1].downstream == next
    requires next in all && next.established && next.downstream == null
    ensures Chain(path + [next], all)
  {
  }

  /** `do_extend_relay`: one more hop behind the last one, its key known to the client. */
  method ExtendRelay(s: Suite, net: map<string, Node>, entry: Node, sessionKeys: seq<Bytes>,
                     targetId: string, targetAddr: string, lastHopDepth: nat,
                     ghost path: seq<Node>, ghost all: set<Node>)
    returns (r: Result<Bytes>)
    requires s.Lawful() && net.Values <= all && targetAddr in net && !net[targetAddr].established
    requires Chain(path, all) && path[0] == entry && sessionKeys == KeysOf(path)
    requires lastHopDepth == |path| - 1 && path[lastHopDepth].role.Proxy?
    modifies all
    ensures Chain(path + [net[targetAddr]], all) && KeysOf(path) == sessionKeys
    ensures r == Ok(net[targetAddr].sessionKey)
    ensures Attached(path[lastHopDepth], net[targetAddr], all)
  {
    var extend, kyberSk, x25519Secret := GenerateInit(s, targetId);
    var extended := SendExtend(s, net, entry, sessionKeys, lastHopDepth, extend, targetAddr, path, all);
    if extended.Err? {
      return Err;
    }
    forall i | 0 <= i < lastHopDepth
      ensures unchanged(path[i])
    {
      assert old(path[i].downstream) == path[i + 1];
    }
    ChainGrows(path, net[targetAddr], all);
    assert KeysOf(path) == sessionKeys;
    r := CompleteKeyExchange(s, CLIENT_ID, extend, extended.value, kyberSk, x25519Secret);
  }

  /**
   The telescoping invariant after `i` hops: the first `i` nodes are one chain whose keys
   the client holds, the others are still idle.
   */
  ghost predicate Built(nodes: seq<Node>, i: nat, sessionKeys: seq<Bytes>, all: set<Node>)
    reads all, nodes
    requires i <= |nodes|
  {
    && WellFormed(all) && sessionKeys == KeysOf(nodes[..i])
    && (i > 0 ==> Chain(nodes[..i], all))
    && (forall j :: i <= j < |nodes| ==> nodes[j] in all && !nodes[j].established)
  }

  lemma BuiltNone(nodes: seq<Node>, all: set<Node>)
    requires Ready(nodes, all)
    ensures Built(nodes, 0, [], all)
  {
  }

  lemma BuiltAll(nodes: seq<Node>, sessionKeys: seq<Bytes>, all: set<Node>)
    requires Built(nodes, |nodes|, sessionKeys, all)
    ensures sessionKeys == KeysOf(nodes) && (nodes != [] ==> Chain(nodes, all))
  {
    assert nodes[..|nodes|] == nodes;
  }

  /** One iteration of `build_circuit`. */
  method AddHop(s: Suite, net: map<string, Node>, hops: seq<CircuitHop>, i: nat, sessionKeys: seq<Bytes>,
                ghost nodes: seq<Node>, ghost all: set<Node>)
    returns (key: Result<Bytes>)
    requires s.Lawful() && net.Values <= all && i < |hops|
    requires (forall h :: h in hops ==> h.address in net) && nodes == NodesOf(net, hops)
    requires Distinct(nodes) && (forall j :: 0 <= j < |nodes| - 1 ==> nodes[j].role.Proxy?)
    requires Built(nodes, i, sessionKeys, all)
    modifies all
    ensures key.Ok? && Built(nodes, i + 1, sessionKeys + [key.value], all)
    ensures forall n :: n in all && n !in nodes ==> unchanged(n)
  {
    var hop := hops[i];
    assert nodes[..i + 1] == nodes[..i] + [nodes[i]];
    if i == 0 {
      key := ExtendDirect(s, net[hop.address], hop.nodeId);
    } else {
      key := ExtendRelay(s, net, net[hops[0].address], sessionKeys, hop.nodeId, hop.address, i - 1, nodes[..i], all);
    }
    assert KeysOf(nodes[..i + 1]) == KeysOf(nodes[..i]) + [nodes[i].sessionKey];
  }

  /**
   `build_circuit`: after any number of hops, the client's key j is the key held by hop j,
   and every hop's downstream is the next one.
   */
  method BuildCircuit(s: Suite, net: map<string, Node>, hops: seq<CircuitHop>,
                      ghost nodes: seq<Node>, ghost all: set<Node>)
    returns (r: Result<(seq<Bytes>, seq<string>)>)
    requires s.Lawful() && net.Values <= all
    requires (forall h :: h in hops ==> h.address in net) && nodes == NodesOf(net, hops)
    requires Ready(nodes, all)
    modifies all
    ensures r.Ok? && r.value.0 == KeysOf(nodes)
    ensures r.value.1 == IdsOf(hops)
    ensures hops != [] ==> Chain(nodes, all)
    ensures forall n :: n in all && n !in nodes ==> unchanged(n)
  {
    var sessionKeys: seq<Bytes> := [];
    var nodeIds: seq<string> := [];
    BuiltNone(nodes, all);
    for i := 0 to |hops|
      invariant nodeIds == IdsOf(hops[..i])
      invariant Built(nodes, i, sessionKeys, all)
      invariant forall n :: n in all && n !in nodes ==> unchanged(n)
    {
      assert hops[..i + 1][..i] == hops[..i];
      var key := AddHop(s, net, hops, i, sessionKeys, nodes, all);
      if key.Err? {
        return Err;
      }
      sessionKeys := sessionKeys + [key.value];
      nodeIds := nodeIds + [hops[i].nodeId];
    }
    BuiltAll(nodes, sessionKeys, all);
    assert hops[..|hops|] == hops;
    r := Ok((sessionKeys, nodeIds));
  }

  /** What the client gets: a command, an error, or nothing for ever, since it waits without a limit. */
  datatype Response = Answered(command: RelayCommand) | Error | NoAnswer

  /**
   A command sent to depth d of a built circuit: hop d reads it unchanged, every hop before
   it reads only a wrapper, and what hop d answers is what the client reads. The client waits
   for ever exactly if hop d has no answer to the command.
   */
  method Exchange(s: Suite, net: map<string, Node>, sessionKeys: seq<Bytes>, targetDepth: nat, command: RelayCommand,
                  path: seq<Node>, ghost all: set<Node>)
    returns (r: Response, ghost trace: seq<RelayCellPayload>)
    requires s.Lawful() && net.Values <= all && Chain(path, all) && sessionKeys == KeysOf(path)
    requires targetDepth < |sessionKeys| && !command.Extend?
    modifies all
    ensures unchanged(all)
    ensures match path[targetDepth].LocalReply(command)
            case None => r == NoAnswer
            case Some(c) => r == Answered(c)
    ensures var hop := path[targetDepth];
            r == NoAnswer <==> !(|| (hop.role.Proxy? && command.AttestationRequest?)
                                 || (hop.role.Verifier? && command.ChainSubmission?)
                                 || (hop.role.Authority? && command.Chain2Submission?))
    ensures targetDepth < |trace| && Peels(s, sessionKeys[..targetDepth + 1], Plain(command), trace[..targetDepth + 1])
    ensures trace[targetDepth] == RelayCellPayload(command, None, None)
    ensures forall d :: 0 <= d < targetDepth ==>
              trace[d].command == Data([]) && trace[d].nextHop == None && trace[d].innerCell.Some?
  {
    var payload := Plain(command);
    var encrypted := WrapPayloadForHop(s, sessionKeys, targetDepth, payload);
    var out;
    ghost var answer;
    out, answer, trace := path[0].Receive(s, net, encrypted, path, sessionKeys, all, targetDepth, payload);
    match out {
      case Failed => r := Error;
      case Silent => r := NoAnswer;
      case Reply(cell) =>
        var response := UnwrapResponseFromHop(s, sessionKeys, targetDepth, cell);
        ghost var reply := path[targetDepth].LocalReply(command);
        OnionUnwraps(s, sessionKeys[..targetDepth + 1], Plain(reply.value), cell);
        r := if response.Ok? then Answered(response.value.command) else Error;
    }
  }

  /** Chain 1 ends at the verifier and chain 2 at the authority: each circuit's submission is answered at its end. */
  method SubmitChain(s: Suite, net: map<string, Node>, sessionKeys: seq<Bytes>, chain: Bytes,
                     path: seq<Node>, ghost all: set<Node>)
    returns (r: Response)
    requires s.Lawful() && net.Values <= all && Chain(path, all) && sessionKeys == KeysOf(path)
    requires !path[|path| - 1].role.Proxy?
    modifies all
    ensures unchanged(all)
    ensures r == Answered(path[|path| - 1].verdict(chain))
  {
    var end := path[|path| - 1];
    var command := if end.role.Verifier? then ChainSubmission(chain) else Chain2Submission(chain);
    var response, trace := Exchange(s, net, sessionKeys, |sessionKeys| - 1, command, path, all);
    r := response;
  }

  /** `collect_proxy_attestations` on a built circuit: each proxy's own quote under its name, in circuit order. */
  method CollectProxyAttestations(s: Suite, net: map<string, Node>, sessionKeys: seq<Bytes>, nodeIds: seq<string>,
                                  path: seq<Node>, ghost all: set<Node>)
    returns (attestations: seq<(string, RelayCommand)>)
    requires s.Lawful() && net.Values <= all && Chain(path, all) && sessionKeys == KeysOf(path)
    requires |nodeIds| == |sessionKeys|
    modifies all
    ensures unchanged(all)
    ensures |attestations| == |path| - 1
    ensures forall d :: 0 <= d < |path| - 1 ==>
              attestations[d] == (nodeIds[d], AttestationResponse(path[d].responderId, path[d].quote))
  {
    attestations := [];
    for depth := 0 to |path| - 1
      invariant unchanged(all)
      invariant |attestations| == depth
      invariant forall d :: 0 <= d < depth ==>
                  attestations[d] == (nodeIds[d], AttestationResponse(path[d].responderId, path[d].quote))
    {
      assert path[depth].role.Proxy?;
      var att, trace := Exchange(s, net, sessionKeys, depth, AttestationRequest, path, all);
      attestations := attestations + [(nodeIds[depth], att.command)];
    }
  }
}
