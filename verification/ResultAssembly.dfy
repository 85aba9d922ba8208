/** Which buffers a wrapped call returns, and in which order. */
module ResultAssembly {
  import opened NamedParameters
  import opened Sequences
  import opened Wrappers

  datatype ParameterType =
    | SendBuf | RecvBuf | SendRecvBuf
    | RecvCounts | RecvCount | RecvDispls | SendCounts | SendCount | SendDispls | SendRecvCount
    | Op | Source | Destination | Status | Statuses | Request | Root | Tag | SendMode | ValuesOnRank0
    | SendType | RecvType | SendRecvType

  const IGNORED: set<ParameterType> := {Op, Source, Destination, Statuses, Request, Root, Tag, SendMode, ValuesOnRank0}

  /** A parameter of a call or a buffer inside it; content stands for the data. */
  datatype Buffer = Buffer(ptype: ParameterType, isOwning: bool, isOut: bool, content: nat)

  /** What the caller gets: nothing, the data of one buffer, or several buffers; or the call does not compile,
      because a buffer that is to be returned does not exist or the receive buffer is ambiguous. */
  datatype Assembled = Nothing | Single(buffer: Buffer) | Several(buffers: seq<Buffer>) | DoesNotCompile

  function BufferTypes(buffers: seq<Buffer>): (types: seq<ParameterType>)
    ensures |types| == |buffers|
  {
    seq(|buffers|, i requires 0 <= i < |buffers| => buffers[i].ptype)
  }

  predicate Has(p: ParameterType, buffers: seq<Buffer>) {
    HasParameterType(p, BufferTypes(buffers))
  }

  /** Not to be returned. */
  predicate IsDiscarded(b: Buffer) {
    b.ptype in IGNORED || !b.isOwning || !b.isOut
  }

  /** The types that are kept, in order. */
  function FilterOut(args: seq<Buffer>): seq<ParameterType> {
    if args == [] then []
    else if IsDiscarded(args[0]) then FilterOut(args[1..])
    else [args[0].ptype] + FilterOut(args[1..])
  }

  /** The first buffer of a type. */
  function SelectBuffer(p: ParameterType, buffers: seq<Buffer>): Option<Buffer> {
    var pos := FindPos(p, 0, BufferTypes(buffers));
    if pos < |buffers| then Some(buffers[pos]) else None
  }

  /** One buffer per type, in the order of the types. */
  function ConstructBufferTuple(types: seq<ParameterType>, buffers: seq<Buffer>): Option<seq<Buffer>> {
    if types == [] then Some([])
    else
      match SelectBuffer(types[0], buffers)
      case None => None
      case Some(first) =>
        match ConstructBufferTuple(types[1..], buffers)
        case None => None
        case Some(rest) => Some([first] + rest)
  }

  function Tuple(types: seq<ParameterType>, buffers: seq<Buffer>): Assembled {
    match ConstructBufferTuple(types, buffers)
    case None => DoesNotCompile
    case Some(bs) => Several(bs)
  }

  function Extracted(p: ParameterType, buffers: seq<Buffer>): Assembled {
    match SelectBuffer(p, buffers)
    case None => DoesNotCompile
    case Some(b) => Single(b)
  }

  predicate ReturnRecvBufferOnly(kept: seq<ParameterType>) {
    kept == [] || kept == [RecvBuf] || kept == [SendRecvBuf]
  }

  predicate ReturnSendBufOnly(kept: seq<ParameterType>) {
    kept == [SendBuf]
  }

  /** make_mpi_result: args is what the caller passed, buffers what the call has worked with. */
  function MakeMpiResult(args: seq<Buffer>, buffers: seq<Buffer>): Assembled {
    var kept := FilterOut(args);
    if ReturnSendBufOnly(kept) then Extracted(SendBuf, buffers)
    else if !Has(RecvBuf, buffers) && !Has(SendRecvBuf, buffers) then Tuple(kept, buffers)
    else if Has(RecvBuf, buffers) && Has(SendRecvBuf, buffers) then DoesNotCompile
    else
      var recvType := if Has(RecvBuf, buffers) then RecvBuf else SendRecvBuf;
      match SelectBuffer(recvType, buffers)
      case None => DoesNotCompile
      case Some(recv) =>
        if !recv.isOwning then (if kept == [] then Nothing else Tuple(kept, buffers))
        else if ReturnRecvBufferOnly(kept) then Single(recv)
        else if HasParameterType(recvType, kept) then Tuple(kept, buffers)
        else Tuple([recvType] + kept, buffers)
  }

  // ----- what it should return -----

  /** All buffers given back to the caller. */
  function Returned(r: Assembled): seq<Buffer> {
    match r
    case Nothing => []
    case Single(b) => [b]
    case Several(bs) => bs
    case DoesNotCompile => []
  }

  /** The caller's own requests: its owning out parameters, in its order. */
  ghost predicate IsRequested(args: seq<Buffer>, p: ParameterType) {
    exists i | 0 <= i < |args| :: args[i].ptype == p && !IsDiscarded(args[i])
  }

  /** What a call of the library hands over after it passed its check: one buffer of each type, a send
      buffer only if there is no receive buffer, and the receive buffer if the caller asked for it. */
  ghost predicate IsCall(args: seq<Buffer>, buffers: seq<Buffer>) {
    var types := BufferTypes(buffers);
    && |args| <= NOT_FOUND && |buffers| <= NOT_FOUND
    && Distinct(BufferTypes(args)) && Distinct(types)
    && !(RecvBuf in types && SendRecvBuf in types)
    && (SendBuf in types ==> RecvBuf !in types && SendRecvBuf !in types)
    && (IsRequested(args, RecvBuf) ==> RecvBuf in types)
    && (IsRequested(args, SendRecvBuf) ==> SendRecvBuf in types)
    && forall k | 0 <= k < |buffers| && IsRequested(args, buffers[k].ptype) :: buffers[k].isOwning && buffers[k].isOut
  }

  /** There is a buffer for every out parameter that the caller asked for. */
  ghost predicate IsSupplied(args: seq<Buffer>, buffers: seq<Buffer>) {
    forall p | IsRequested(args, p) :: p in BufferTypes(buffers)
  }

  /** A receive buffer that owns its data although the caller did not ask for it. */
  ghost predicate IsImplicit(args: seq<Buffer>, b: Buffer) {
    (b.ptype == RecvBuf || b.ptype == SendRecvBuf) && b.isOwning && !IsRequested(args, b.ptype)
  }

  ghost predicate HasImplicit(args: seq<Buffer>, buffers: seq<Buffer>) {
    exists k | 0 <= k < |buffers| :: IsImplicit(args, buffers[k])
  }

  ghost predicate InCallerOrder(args: seq<Buffer>, returned: seq<Buffer>) {
    forall i, j, k, l {:trigger args[i], args[j], returned[k], returned[l]} |
        0 <= i < j < |args| && !IsDiscarded(args[i]) && !IsDiscarded(args[j])
        && 0 <= k < |returned| && 0 <= l < |returned|
        && returned[k].ptype == args[i].ptype && returned[l].ptype == args[j].ptype :: k < l
  }

  /** What the documentation promises: every owning out buffer that was asked for is returned once, in the
      caller's order; the receive buffer, if not asked for, comes first; nothing else is returned; and a
      receive buffer that is the only one comes without a wrapper. */
  ghost predicate IsPromised(args: seq<Buffer>, buffers: seq<Buffer>, r: Assembled) {
    var returned := Returned(r);
    && !r.DoesNotCompile?
    && Distinct(returned)
    && (forall b :: b in returned <==> b in buffers && (IsRequested(args, b.ptype) || IsImplicit(args, b)))
    && (forall k | 0 <= k < |returned| && IsImplicit(args, returned[k]) :: k == 0)
    && InCallerOrder(args, returned)
    && (|returned| == 1 && returned[0].ptype in {RecvBuf, SendRecvBuf} ==> r.Single?)
  }

  /** The caller asks for its send buffer back, and for nothing else. */
  ghost predicate WantsOnlySendBuffer(args: seq<Buffer>) {
    IsRequested(args, SendBuf) && forall p | IsRequested(args, p) :: p == SendBuf
  }

  // ----- filtering -----

  lemma RequestedStep(args: seq<Buffer>, p: ParameterType)
    requires args != []
    ensures IsRequested(args, p) <==> (args[0].ptype == p && !IsDiscarded(args[0])) || IsRequested(args[1..], p)
  {
    if IsRequested(args[1..], p) {
      var i :| 0 <= i < |args[1..]| && args[1..][i].ptype == p && !IsDiscarded(args[1..][i]);
      assert args[i + 1].ptype == p;
    }
    if IsRequested(args, p) {
      var i :| 0 <= i < |args| && args[i].ptype == p && !IsDiscarded(args[i]);
      assert i > 0 ==> args[1..][i - 1] == args[i];
    }
  }

  lemma TailTypes(args: seq<Buffer>)
    requires args != [] && Distinct(BufferTypes(args))
    ensures BufferTypes(args[1..]) == BufferTypes(args)[1..] && Distinct(BufferTypes(args[1..]))
    ensures args[0].ptype !in BufferTypes(args[1..])
  {
    var types, rest := BufferTypes(args), BufferTypes(args[1..]);
    assert rest == types[1..];
    assert forall i | 0 <= i < |rest| :: rest[i] == types[i + 1] != types[0];
  }

  /** The filter keeps exactly what was requested, once each. */
  lemma {:induction false} FilterOutIff(args: seq<Buffer>)
    requires Distinct(BufferTypes(args))
    ensures forall p :: p in FilterOut(args) <==> IsRequested(args, p)
    ensures forall p :: p in FilterOut(args) ==> p in BufferTypes(args)
    ensures Distinct(FilterOut(args))
  {
    if args != [] {
      var rest := args[1..];
      TailTypes(args);
      FilterOutIff(rest);
      forall p ensures p in FilterOut(args) <==> IsRequested(args, p) {
        RequestedStep(args, p);
      }
      assert forall p :: p in BufferTypes(rest) ==> p in BufferTypes(args);
      assert BufferTypes(args)[0] == args[0].ptype;
      if !IsDiscarded(args[0]) {
        var kept := FilterOut(args);
        forall k, l | 0 <= k < l < |kept| ensures kept[k] != kept[l] {
          assert kept[l] == FilterOut(rest)[l - 1];
          assert k > 0 ==> kept[k] == FilterOut(rest)[k - 1];
        }
      }
    }
  }

  lemma {:induction false} FilterOutKeepsOrder(args: seq<Buffer>, i: nat, j: nat, k: nat, l: nat)
    requires Distinct(BufferTypes(args)) && i < j < |args| && !IsDiscarded(args[i]) && !IsDiscarded(args[j])
    requires k < |FilterOut(args)| && l < |FilterOut(args)|
    requires FilterOut(args)[k] == args[i].ptype && FilterOut(args)[l] == args[j].ptype
    ensures k < l
    decreases |args|
  {
    var rest := args[1..];
    TailTypes(args);
    FilterOutIff(rest);
    assert rest[j - 1] == args[j] && BufferTypes(rest)[j - 1] == args[j].ptype;
    if IsDiscarded(args[0]) {
      FilterOutKeepsOrder(rest, i - 1, j - 1, k, l);
    } else {
      assert l > 0;
      if i > 0 {
        assert rest[i - 1] == args[i] && BufferTypes(rest)[i - 1] == args[i].ptype;
        FilterOutKeepsOrder(rest, i - 1, j - 1, k - 1, l - 1);
      }
    }
  }

  // ----- selecting -----

  /** returned consists of buffers of the call with these types, in this order. */
  ghost predicate IsSelection(buffers: seq<Buffer>, types: seq<ParameterType>, returned: seq<Buffer>) {
    |returned| == |types| && forall k | 0 <= k < |types| :: returned[k] in buffers && returned[k].ptype == types[k]
  }

  lemma HasIff(p: ParameterType, buffers: seq<Buffer>)
    requires |buffers| <= NOT_FOUND
    ensures Has(p, buffers) <==> p in BufferTypes(buffers)
    ensures Has(p, buffers) <==> exists k | 0 <= k < |buffers| :: buffers[k].ptype == p
  {
    HasParameterTypeIff(p, BufferTypes(buffers));
    if p in BufferTypes(buffers) {
      var k :| 0 <= k < |buffers| && BufferTypes(buffers)[k] == p;
      assert buffers[k].ptype == p;
    }
    if k :| 0 <= k < |buffers| && buffers[k].ptype == p {
      assert BufferTypes(buffers)[k] == p;
    }
  }

  lemma SelectBufferFinds(p: ParameterType, buffers: seq<Buffer>)
    requires |buffers| <= NOT_FOUND
    ensures SelectBuffer(p, buffers).Some? <==> p in BufferTypes(buffers)
    ensures SelectBuffer(p, buffers).Some? ==> SelectBuffer(p, buffers).value in buffers
    ensures SelectBuffer(p, buffers).Some? ==> SelectBuffer(p, buffers).value.ptype == p
  {
    FindPosIsFirst(p, 0, BufferTypes(buffers));
  }

  lemma {:induction false} TupleSelects(types: seq<ParameterType>, buffers: seq<Buffer>)
    requires |buffers| <= NOT_FOUND && forall k | 0 <= k < |types| :: types[k] in BufferTypes(buffers)
    ensures Tuple(types, buffers).Several? && IsSelection(buffers, types, Returned(Tuple(types, buffers)))
  {
    if types != [] {
      SelectBufferFinds(types[0], buffers);
      assert types[0] in BufferTypes(buffers);
      forall k | 0 <= k < |types[1..]| ensures types[1..][k] in BufferTypes(buffers) {
        assert types[1..][k] == types[k + 1];
      }
      TupleSelects(types[1..], buffers);
    }
  }

  /** In a call a buffer is known by its type. */
  lemma SameTypeSameBuffer(buffers: seq<Buffer>, a: Buffer, b: Buffer)
    requires Distinct(BufferTypes(buffers)) && a in buffers && b in buffers && a.ptype == b.ptype
    ensures a == b
  {
    var k :| 0 <= k < |buffers| && buffers[k] == a;
    var l :| 0 <= l < |buffers| && buffers[l] == b;
    assert BufferTypes(buffers)[k] == BufferTypes(buffers)[l];
  }

  lemma SelectionIsExact(buffers: seq<Buffer>, types: seq<ParameterType>, returned: seq<Buffer>, b: Buffer)
    requires Distinct(BufferTypes(buffers)) && IsSelection(buffers, types, returned)
    ensures b in returned <==> b in buffers && b.ptype in types
  {
    if b in returned {
      var k :| 0 <= k < |returned| && returned[k] == b;
      assert types[k] == b.ptype;
    }
    if b in buffers && b.ptype in types {
      var k :| 0 <= k < |types| && types[k] == b.ptype;
      SameTypeSameBuffer(buffers, b, returned[k]);
    }
  }

  lemma SelectionIsDistinct(buffers: seq<Buffer>, types: seq<ParameterType>, returned: seq<Buffer>)
    requires IsSelection(buffers, types, returned) && Distinct(types)
    ensures Distinct(returned)
  {
    forall k, l | 0 <= k < l < |returned| ensures returned[k] != returned[l] {
      assert types[k] != types[l];
    }
  }

  // ----- the promise -----

  /** Only one buffer can be an implicit receive buffer. */
  lemma ImplicitIsUnique(args: seq<Buffer>, buffers: seq<Buffer>, a: Buffer, b: Buffer)
    requires IsCall(args, buffers) && a in buffers && b in buffers && IsImplicit(args, a)
    requires b.ptype == RecvBuf || b.ptype == SendRecvBuf
    ensures a == b
  {
    var k :| 0 <= k < |buffers| && buffers[k] == a;
    var l :| 0 <= l < |buffers| && buffers[l] == b;
    assert BufferTypes(buffers)[k] == a.ptype && BufferTypes(buffers)[l] == b.ptype;
    SameTypeSameBuffer(buffers, a, b);
  }

  /** Selecting the requests, in order, when there is no implicit receive buffer. */
  lemma RequestsArePromised(args: seq<Buffer>, buffers: seq<Buffer>, r: Assembled)
    requires IsCall(args, buffers) && !HasImplicit(args, buffers) && !r.DoesNotCompile?
    requires IsSelection(buffers, FilterOut(args), Returned(r))
    requires |Returned(r)| == 1 && Returned(r)[0].ptype in {RecvBuf, SendRecvBuf} ==> r.Single?
    ensures IsPromised(args, buffers, r)
  {
    var kept, returned := FilterOut(args), Returned(r);
    FilterOutIff(args);
    SelectionIsDistinct(buffers, kept, returned);
    forall b ensures b in returned <==> b in buffers && (IsRequested(args, b.ptype) || IsImplicit(args, b)) {
      SelectionIsExact(buffers, kept, returned, b);
    }
    SelectionKeepsOrder(args, buffers, kept, 0, returned);
  }

  lemma {:induction false} SelectionKeepsOrder(args: seq<Buffer>, buffers: seq<Buffer>, types: seq<ParameterType>,
      skipped: nat, returned: seq<Buffer>)
    requires Distinct(BufferTypes(args)) && IsSelection(buffers, types, returned) && skipped <= 1
    requires skipped <= |types| && types[skipped..] == FilterOut(args)
    requires skipped == 1 ==> types[0] !in FilterOut(args)
    ensures InCallerOrder(args, returned)
  {
    forall i, j, k, l | 0 <= i < j < |args| && !IsDiscarded(args[i]) && !IsDiscarded(args[j]) && 0 <= k < |returned|
        && 0 <= l < |returned| && returned[k].ptype == args[i].ptype && returned[l].ptype == args[j].ptype
      ensures k < l
    {
      SelectionKeepsOrderAt(args, types, skipped, i, j, k, l);
    }
  }

  lemma {:induction false} SelectionKeepsOrderAt(args: seq<Buffer>, types: seq<ParameterType>, skipped: nat, i: nat,
      j: nat, k: nat, l: nat)
    requires Distinct(BufferTypes(args)) && skipped <= 1
    requires skipped <= |types| && types[skipped..] == FilterOut(args)
    requires skipped == 1 ==> types[0] !in FilterOut(args)
    requires i < j < |args| && !IsDiscarded(args[i]) && !IsDiscarded(args[j])
    requires k < |types| && l < |types| && types[k] == args[i].ptype && types[l] == args[j].ptype
    ensures k < l
  {
    FilterOutIff(args);
    assert IsRequested(args, args[i].ptype) && IsRequested(args, args[j].ptype);
    FilterOutKeepsOrder(args, i, j, k - skipped, l - skipped);
  }

  /** The same with the implicit receive buffer in front. */
  lemma ImplicitAndRequestsArePromised(args: seq<Buffer>, buffers: seq<Buffer>, recv: Buffer, r: Assembled)
    requires IsCall(args, buffers) && recv in buffers && IsImplicit(args, recv) && !r.DoesNotCompile?
    requires IsSelection(buffers, [recv.ptype] + FilterOut(args), Returned(r))
    requires |Returned(r)| == 1 && Returned(r)[0].ptype in {RecvBuf, SendRecvBuf} ==> r.Single?
    ensures IsPromised(args, buffers, r)
  {
    var kept, returned := FilterOut(args), Returned(r);
    var types := [recv.ptype] + kept;
    FilterOutIff(args);
    assert types[1..] == kept;
    SelectionIsDistinct(buffers, types, returned);
    forall b ensures b in returned <==> b in buffers && (IsRequested(args, b.ptype) || IsImplicit(args, b)) {
      SelectionIsExact(buffers, types, returned, b);
      if b in buffers && (b.ptype == recv.ptype || IsImplicit(args, b)) {
        ImplicitIsUnique(args, buffers, recv, b);
      }
    }
    forall k | 0 <= k < |returned| && IsImplicit(args, returned[k]) ensures k == 0 {
      ImplicitIsUnique(args, buffers, recv, returned[k]);
      assert types[k] == recv.ptype && types[0] == recv.ptype;
    }
    SelectionKeepsOrder(args, buffers, types, 1, returned);
  }

  lemma OnlySendBufferIff(args: seq<Buffer>)
    requires Distinct(BufferTypes(args))
    ensures WantsOnlySendBuffer(args) <==> ReturnSendBufOnly(FilterOut(args))
  {
    var kept := FilterOut(args);
    FilterOutIff(args);
    if WantsOnlySendBuffer(args) {
      assert forall k | 0 <= k < |kept| :: kept[k] in kept && kept[k] == SendBuf;
      DistinctCardinality(kept);
      SubsetCardinality(Elements(kept), {SendBuf});
    }
    if ReturnSendBufOnly(kept) {
      assert SendBuf in kept;
      forall p | IsRequested(args, p) ensures p == SendBuf {
        assert p in kept;
      }
    }
  }

  /** Only the send buffer comes back; then there is no receive buffer that could be lost. */
  lemma SendBufferCase(args: seq<Buffer>, buffers: seq<Buffer>)
    requires IsCall(args, buffers) && IsSupplied(args, buffers) && WantsOnlySendBuffer(args)
    ensures IsPromised(args, buffers, MakeMpiResult(args, buffers))
  {
    OnlySendBufferIff(args);
    SelectBufferFinds(SendBuf, buffers);
    assert !HasImplicit(args, buffers) by {
      if k :| 0 <= k < |buffers| && IsImplicit(args, buffers[k]) {
        assert BufferTypes(buffers)[k] == buffers[k].ptype;
      }
    }
    RequestsArePromised(args, buffers, MakeMpiResult(args, buffers));
  }

  lemma RequestsAreSupplied(args: seq<Buffer>, buffers: seq<Buffer>)
    requires IsCall(args, buffers) && IsSupplied(args, buffers)
    ensures Tuple(FilterOut(args), buffers).Several?
    ensures IsSelection(buffers, FilterOut(args), Returned(Tuple(FilterOut(args), buffers)))
  {
    FilterOutIff(args);
    forall k | 0 <= k < |FilterOut(args)| ensures FilterOut(args)[k] in BufferTypes(buffers) {
      assert FilterOut(args)[k] in FilterOut(args);
    }
    TupleSelects(FilterOut(args), buffers);
  }

  /** The receive buffer that make_mpi_result looks at, if there is one. */
  function ReceiveBuffer(buffers: seq<Buffer>): Option<Buffer> {
    if Has(RecvBuf, buffers) then SelectBuffer(RecvBuf, buffers) else SelectBuffer(SendRecvBuf, buffers)
  }

  lemma ReceiveBufferIff(args: seq<Buffer>, buffers: seq<Buffer>)
    requires IsCall(args, buffers)
    ensures ReceiveBuffer(buffers).None? <==> !Has(RecvBuf, buffers) && !Has(SendRecvBuf, buffers)
    ensures !(Has(RecvBuf, buffers) && Has(SendRecvBuf, buffers))
    ensures ReceiveBuffer(buffers).Some? ==> ReceiveBuffer(buffers).value in buffers
    ensures ReceiveBuffer(buffers).Some? ==>
              ReceiveBuffer(buffers).value.ptype == if Has(RecvBuf, buffers) then RecvBuf else SendRecvBuf
    ensures HasImplicit(args, buffers) <==>
      (ReceiveBuffer(buffers).Some? && IsImplicit(args, ReceiveBuffer(buffers).value))
  {
    HasIff(RecvBuf, buffers);
    HasIff(SendRecvBuf, buffers);
    SelectBufferFinds(RecvBuf, buffers);
    SelectBufferFinds(SendRecvBuf, buffers);
    if HasImplicit(args, buffers) {
      var k :| 0 <= k < |buffers| && IsImplicit(args, buffers[k]);
      assert buffers[k] in buffers;
      ImplicitIsUnique(args, buffers, buffers[k], ReceiveBuffer(buffers).value);
    }
  }

  lemma NoReceiveBufferCase(args: seq<Buffer>, buffers: seq<Buffer>)
    requires IsCall(args, buffers) && IsSupplied(args, buffers) && !WantsOnlySendBuffer(args)
    requires ReceiveBuffer(buffers).None?
    ensures IsPromised(args, buffers, MakeMpiResult(args, buffers))
  {
    OnlySendBufferIff(args);
    ReceiveBufferIff(args, buffers);
    RequestsAreSupplied(args, buffers);
    HasIff(RecvBuf, buffers);
    HasIff(SendRecvBuf, buffers);
    RequestsArePromised(args, buffers, MakeMpiResult(args, buffers));
  }

  lemma BorrowedReceiveBufferCase(args: seq<Buffer>, buffers: seq<Buffer>)
    requires IsCall(args, buffers) && IsSupplied(args, buffers) && !WantsOnlySendBuffer(args)
    requires ReceiveBuffer(buffers).Some?
    requires !ReceiveBuffer(buffers).value.isOwning
    ensures IsPromised(args, buffers, MakeMpiResult(args, buffers))
  {
    OnlySendBufferIff(args);
    ReceiveBufferIff(args, buffers);
    RequestsAreSupplied(args, buffers);
    FilterOutIff(args);
    var r, recv := MakeMpiResult(args, buffers), ReceiveBuffer(buffers).value;
    if |Returned(r)| == 1 && Returned(r)[0].ptype in {RecvBuf, SendRecvBuf} {
      var b := Returned(r)[0];
      assert b.ptype in FilterOut(args);
      HasIff(b.ptype, buffers);
      SameTypeSameBuffer(buffers, b, recv);
    }
    RequestsArePromised(args, buffers, r);
  }

  lemma OwnedReceiveBufferCase(args: seq<Buffer>, buffers: seq<Buffer>)
    requires IsCall(args, buffers) && IsSupplied(args, buffers) && !WantsOnlySendBuffer(args)
    requires ReceiveBuffer(buffers).Some?
    requires ReceiveBuffer(buffers).value.isOwning
    ensures IsPromised(args, buffers, MakeMpiResult(args, buffers))
  {
    OnlySendBufferIff(args);
    ReceiveBufferIff(args, buffers);
    RequestsAreSupplied(args, buffers);
    FilterOutIff(args);
    var r, recv, kept := MakeMpiResult(args, buffers), ReceiveBuffer(buffers).value, FilterOut(args);
    assert recv.ptype in BufferTypes(buffers) by {
      HasIff(RecvBuf, buffers);
      HasIff(SendRecvBuf, buffers);
    }
    if kept == [] {
      assert r == Single(recv);
      ImplicitAndRequestsArePromised(args, buffers, recv, r);
    } else if ReturnRecvBufferOnly(kept) {
      assert kept[0] in kept;
      HasIff(kept[0], buffers);
      assert r == Single(recv) && kept == [recv.ptype];
      RequestsArePromised(args, buffers, r);
    } else {
      FilterOutLength(args);
      HasParameterTypeIff(recv.ptype, kept);
      if recv.ptype in kept {
        assert r == Tuple(kept, buffers);
        RequestsArePromised(args, buffers, r);
      } else {
        var types := [recv.ptype] + kept;
        forall k | 0 <= k < |types| ensures types[k] in BufferTypes(buffers) {
          assert k > 0 ==> types[k] == kept[k - 1] && kept[k - 1] in kept;
        }
        TupleSelects(types, buffers);
        assert r == Tuple(types, buffers);
        ImplicitAndRequestsArePromised(args, buffers, recv, r);
      }
    }
  }

  lemma {:induction false} FilterOutLength(args: seq<Buffer>)
    ensures |FilterOut(args)| <= |args|
  {
    if args != [] {
      FilterOutLength(args[1..]);
    }
  }

  // ----- which calls compile -----

  lemma {:induction false} TupleMisses(types: seq<ParameterType>, buffers: seq<Buffer>, k: nat)
    requires |buffers| <= NOT_FOUND && k < |types| && types[k] !in BufferTypes(buffers)
    ensures Tuple(types, buffers).DoesNotCompile?
  {
    SelectBufferFinds(types[0], buffers);
    if k > 0 {
      assert types[1..][k - 1] == types[k];
      TupleMisses(types[1..], buffers, k - 1);
    }
  }

  lemma {:induction false} MissingKept(args: seq<Buffer>, kept: seq<ParameterType>, buffers: seq<Buffer>, k: nat)
    requires kept == FilterOut(args) && |buffers| <= NOT_FOUND
    requires k < |kept| && kept[k] !in BufferTypes(buffers) && kept[k] != RecvBuf && kept[k] != SendRecvBuf
    ensures MakeMpiResult(args, buffers).DoesNotCompile?
  {
    TupleMisses(kept, buffers, k);
    TupleMisses([RecvBuf] + kept, buffers, k + 1);
    TupleMisses([SendRecvBuf] + kept, buffers, k + 1);
    SelectBufferFinds(SendBuf, buffers);
    SelectBufferFinds(RecvBuf, buffers);
    SelectBufferFinds(SendRecvBuf, buffers);
    HasIff(RecvBuf, buffers);
    HasIff(SendRecvBuf, buffers);
  }

  lemma MissingBufferCase(args: seq<Buffer>, buffers: seq<Buffer>, p: ParameterType)
    requires IsCall(args, buffers) && IsRequested(args, p) && p !in BufferTypes(buffers)
    ensures MakeMpiResult(args, buffers).DoesNotCompile?
  {
    var kept := FilterOut(args);
    FilterOutIff(args);
    var k :| 0 <= k < |kept| && kept[k] == p;
    MissingKept(args, kept, buffers, k);
  }

  /** A call compiles if and only if every out parameter the caller asked for is one the call hands back,
      and then the result is as promised. */
  lemma ResultIsPromisedIff(args: seq<Buffer>, buffers: seq<Buffer>)
    requires IsCall(args, buffers)
    ensures !MakeMpiResult(args, buffers).DoesNotCompile? <==> IsSupplied(args, buffers)
    ensures IsPromised(args, buffers, MakeMpiResult(args, buffers)) <==> IsSupplied(args, buffers)
  {
    if !IsSupplied(args, buffers) {
      var p :| IsRequested(args, p) && p !in BufferTypes(buffers);
      MissingBufferCase(args, buffers, p);
    } else if WantsOnlySendBuffer(args) {
      SendBufferCase(args, buffers);
    } else if ReceiveBuffer(buffers).None? {
      NoReceiveBufferCase(args, buffers);
    } else if !ReceiveBuffer(buffers).value.isOwning {
      BorrowedReceiveBufferCase(args, buffers);
    } else {
      OwnedReceiveBufferCase(args, buffers);
    }
  }

  // ----- which types come back, and in which form -----

  /** The types whose buffers can be handed back. */
  const RETURNABLE: set<ParameterType> := {
    SendBuf, RecvBuf, SendRecvBuf, RecvCounts, RecvCount, RecvDispls, SendCounts, SendCount, SendDispls, SendRecvCount,
    Status, SendType, RecvType, SendRecvType
  }

  /** The caller passed a parameter of this type for the call to fill and hand over. */
  ghost predicate AsksFor(args: seq<Buffer>, p: ParameterType) {
    p in RETURNABLE && exists i | 0 <= i < |args| :: args[i].ptype == p && args[i].isOwning && args[i].isOut
  }

  lemma AsksForIff(args: seq<Buffer>, p: ParameterType)
    ensures AsksFor(args, p) <==> IsRequested(args, p)
  {
    assert p in RETURNABLE <==> p !in IGNORED;
    if AsksFor(args, p) {
      var i :| 0 <= i < |args| && args[i].ptype == p && args[i].isOwning && args[i].isOut;
      assert !IsDiscarded(args[i]);
    }
    if IsRequested(args, p) {
      var i :| 0 <= i < |args| && args[i].ptype == p && !IsDiscarded(args[i]);
      assert args[i].isOwning && args[i].isOut;
    }
  }

  /** A buffer of the call comes back if and only if the caller asked for its type, or it is a receive buffer
      that owns its data. */
  lemma ReturnedIff(args: seq<Buffer>, buffers: seq<Buffer>, b: Buffer)
    requires IsCall(args, buffers) && IsSupplied(args, buffers)
    ensures b in Returned(MakeMpiResult(args, buffers)) <==>
            b in buffers && (AsksFor(args, b.ptype) || (b.ptype in {RecvBuf, SendRecvBuf} && b.isOwning))
  {
    ResultIsPromisedIff(args, buffers);
    AsksForIff(args, b.ptype);
  }

  /** An owning out parameter of one of these types always comes back. */
  lemma AskedForIsReturned(args: seq<Buffer>, buffers: seq<Buffer>, i: nat) returns (b: Buffer)
    requires IsCall(args, buffers) && IsSupplied(args, buffers)
    requires i < |args| && args[i].ptype in RETURNABLE && args[i].isOwning && args[i].isOut
    ensures b in buffers && b.ptype == args[i].ptype && b in Returned(MakeMpiResult(args, buffers))
  {
    var p := args[i].ptype;
    AsksForIff(args, p);
    var k :| 0 <= k < |buffers| && BufferTypes(buffers)[k] == p;
    b := buffers[k];
    ReturnedIff(args, buffers, b);
  }

  lemma RecvTypesIff(buffers: seq<Buffer>)
    requires |buffers| <= NOT_FOUND
    ensures Has(RecvBuf, buffers) <==> RecvBuf in BufferTypes(buffers)
    ensures Has(SendRecvBuf, buffers) <==> SendRecvBuf in BufferTypes(buffers)
  {
    HasIff(RecvBuf, buffers);
    HasIff(SendRecvBuf, buffers);
  }

  lemma {:induction false} TupleForm(types: seq<ParameterType>, buffers: seq<Buffer>)
    ensures Tuple(types, buffers).DoesNotCompile? ||
            (Tuple(types, buffers).Several? && |Returned(Tuple(types, buffers))| == |types|)
  {
    if types != [] {
      TupleForm(types[1..], buffers);
    }
  }

  /** The result comes without a wrapper if and only if it is one send or receive buffer, and is void if and only
      if a call with a receive buffer hands nothing back. */
  lemma ResultForm(args: seq<Buffer>, buffers: seq<Buffer>)
    requires IsCall(args, buffers) && IsSupplied(args, buffers)
    ensures var r, types := MakeMpiResult(args, buffers), BufferTypes(buffers);
            && (r.Single? <==> |Returned(r)| == 1 && Returned(r)[0].ptype in {SendBuf, RecvBuf, SendRecvBuf})
            && (r.Nothing? <==> Returned(r) == [] && (RecvBuf in types || SendRecvBuf in types))
  {
    var r, types := MakeMpiResult(args, buffers), BufferTypes(buffers);
    ResultIsPromisedIff(args, buffers);
    RecvTypesIff(buffers);
    SelectBufferFinds(SendBuf, buffers);
    SelectBufferFinds(RecvBuf, buffers);
    SelectBufferFinds(SendRecvBuf, buffers);
    if r.Several? {
      SeveralForm(args, buffers);
    }
  }

  /** Where a tuple comes from. */
  lemma SeveralFrom(args: seq<Buffer>, buffers: seq<Buffer>) returns (types: seq<ParameterType>)
    requires |buffers| <= NOT_FOUND && MakeMpiResult(args, buffers).Several?
    ensures MakeMpiResult(args, buffers) == Tuple(types, buffers)
    ensures |types| >= 2 || types == FilterOut(args)
    ensures types != [SendBuf]
    ensures types == [] ==> !Has(RecvBuf, buffers) && !Has(SendRecvBuf, buffers)
    ensures types == [RecvBuf] || types == [SendRecvBuf] ==>
      ReceiveBuffer(buffers).None? || !ReceiveBuffer(buffers).value.isOwning
  {
    types := FilterOut(args);
    SelectBufferFinds(RecvBuf, buffers);
    SelectBufferFinds(SendRecvBuf, buffers);
    RecvTypesIff(buffers);
    if MakeMpiResult(args, buffers) != Tuple(types, buffers) {
      types := [if Has(RecvBuf, buffers) then RecvBuf else SendRecvBuf] + types;
    }
  }

  lemma SeveralForm(args: seq<Buffer>, buffers: seq<Buffer>)
    requires IsCall(args, buffers) && IsSupplied(args, buffers) && MakeMpiResult(args, buffers).Several?
    ensures var returned := Returned(MakeMpiResult(args, buffers));
            && (returned == [] ==> RecvBuf !in BufferTypes(buffers) && SendRecvBuf !in BufferTypes(buffers))
            && (|returned| == 1 ==> returned[0].ptype !in {SendBuf, RecvBuf, SendRecvBuf})
  {
    var types := SeveralFrom(args, buffers);
    TupleForm(types, buffers);
    RecvTypesIff(buffers);
    if |types| == 1 {
      RequestsAreSupplied(args, buffers);
      assert Returned(MakeMpiResult(args, buffers))[0].ptype == types[0];
      assert types[0] !in {RecvBuf, SendRecvBuf} by {
        if types[0] == RecvBuf || types[0] == SendRecvBuf {
          RequestedReceiveBuffer(args, buffers, types[0]);
          assert false;
        }
      }
    }
  }

  /** A receive buffer that was asked for exists and owns its data. */
  lemma RequestedReceiveBuffer(args: seq<Buffer>, buffers: seq<Buffer>, p: ParameterType)
    requires IsCall(args, buffers) && (p == RecvBuf || p == SendRecvBuf) && FilterOut(args) == [p]
    ensures ReceiveBuffer(buffers).Some? && ReceiveBuffer(buffers).value.isOwning
  {
    FilterOutIff(args);
    assert p in FilterOut(args);
    ReceiveBufferIff(args, buffers);
    RecvTypesIff(buffers);
    var b := ReceiveBuffer(buffers).value;
    var k :| 0 <= k < |buffers| && buffers[k] == b;
    assert BufferTypes(buffers)[k] == b.ptype;
  }

  /** So no call with a receive buffer gives the send buffer back. */
  lemma SendBufferIsNotReturned(args: seq<Buffer>, buffers: seq<Buffer>)
    requires IsCall(args, buffers) && IsRequested(args, SendBuf)
    requires RecvBuf in BufferTypes(buffers) || SendRecvBuf in BufferTypes(buffers)
    ensures MakeMpiResult(args, buffers).DoesNotCompile?
  {
    MissingBufferCase(args, buffers, SendBuf);
  }

  /** Such a call: send_buf_out in a collective, which hands back the receive buffer it allocated. */
  lemma SendBufOutOnCollective(sent: nat, received: nat)
    ensures var args, buffers := [Buffer(SendBuf, true, true, sent)], [Buffer(RecvBuf, true, true, received)];
            IsCall(args, buffers) && MakeMpiResult(args, buffers) == DoesNotCompile
  {
    var args, buffers := [Buffer(SendBuf, true, true, sent)], [Buffer(RecvBuf, true, true, received)];
    assert BufferTypes(args) == [SendBuf] && BufferTypes(buffers) == [RecvBuf];
    assert IsRequested(args, SendBuf) by { assert args[0].ptype == SendBuf; }
    assert forall p | IsRequested(args, p) :: p == SendBuf;
    assert RecvBuf == BufferTypes(buffers)[0];
    SendBufferIsNotReturned(args, buffers);
  }
}
