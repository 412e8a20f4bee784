/**
 * The client's side of the protocol: a state machine over five states that
 * tracks the one operation sent and not yet acknowledged, the edits made
 * since (the buffer), and, after an acknowledgement that skipped revisions,
 * the operations it still has to fetch.  `revision` is the next revision the
 * client expects from the server.  Sending an operation, applying one to the
 * editor and fetching missed operations are effects the client asks for.
 */
module ClientModel {
  import opened Wrappers
  import opened TextOperation
  import opened Composition
  import opened Transformation
  import opened Rebasing
  import opened Selections

  datatype ClientState =
    | Synchronized
      // one operation sent, not yet acknowledged
    | AwaitingConfirm(outstanding: TextOp)
      // ... and the edits made since, composed
    | AwaitingWithBuffer(outstanding: TextOp, buffer: TextOp)
      // acknowledged as revision `ackRevision`, the revisions before it not yet received
    | Stale(acknowledged: TextOp, ackRevision: int)
    | StaleWithBuffer(acknowledged: TextOp, buffer: TextOp, ackRevision: int)

  /** What the client asks its environment to do. */
  datatype Effect =
    | SendOperation(revision: int, operation: TextOp)
    | ApplyOperation(operation: TextOp)
    | GetOperations(base: int, head: int)

  /** Why a client call throws. */
  datatype ClientError =
    | InvalidRevision
    | NoPendingOperation
    | IgnoredServerChange
    | NotAFunction(name: string)
    | OperationFailed(e: OpError)

  /**
   * The result of one call on the current state: the state the client is
   * set to, its revision, the effects in the order they happen, and the error
   * when the call throws (the state is then not replaced, but an earlier
   * assignment of the revision stays).
   */
  datatype Outcome = Outcome(state: ClientState, revision: int, effects: seq<Effect>, error: Option<ClientError>)

  /** How many sent operations wait for an acknowledgement. */
  function InFlight(s: ClientState): nat {
    if s.AwaitingConfirm? || s.AwaitingWithBuffer? then 1 else 0
  }

  /** `applyClient`: the user changed the document by `op`. */
  function ApplyClientStep(s: ClientState, revision: int, op: TextOp): Outcome {
    match s
    case Synchronized => Outcome(AwaitingConfirm(op), revision, [SendOperation(revision, op)], None)
    case AwaitingConfirm(o) => Outcome(AwaitingWithBuffer(o, op), revision, [], None)
    case AwaitingWithBuffer(o, b) =>
      (match Compose(b, op)
       case Failure(e) => Outcome(s, revision, [], Some(OperationFailed(e)))
       case Success(c) => Outcome(AwaitingWithBuffer(o, c), revision, [], None))
    case Stale(a, ackRev) => Outcome(StaleWithBuffer(a, op, ackRev), revision, [], None)
    case StaleWithBuffer(a, b, ackRev) =>
      match Compose(b, op)
      case Failure(e) => Outcome(s, revision, [], Some(OperationFailed(e)))
      case Success(c) => Outcome(StaleWithBuffer(a, c, ackRev), revision, [], None)
  }

  /** `applyServer`: another client's operation `op` arrives as revision `rev`. */
  function ApplyServerStep(s: ClientState, revision: int, rev: int, op: TextOp): Outcome {
    if s.Stale? || s.StaleWithBuffer? then Outcome(s, revision, [], Some(IgnoredServerChange))
    else if rev - revision > 1 then Outcome(s, revision, [], Some(InvalidRevision))
    else
      match s
      case Synchronized => Outcome(Synchronized, rev, [ApplyOperation(op)], None)
      case AwaitingConfirm(o) =>
        (match Transform(o, op)
         case Failure(e) => Outcome(s, rev, [], Some(OperationFailed(e)))
         case Success(pair) => Outcome(AwaitingConfirm(pair.0), rev, [ApplyOperation(pair.1)], None))
      case AwaitingWithBuffer(o, b) =>
        match Transform(o, op)
        case Failure(e) => Outcome(s, rev, [], Some(OperationFailed(e)))
        case Success(pair1) =>
          (match Transform(b, pair1.1)
           case Failure(e) => Outcome(s, rev, [], Some(OperationFailed(e)))
           case Success(pair2) => Outcome(AwaitingWithBuffer(pair1.0, pair2.0), rev, [ApplyOperation(pair2.1)], None))
  }

  /**
   * `serverAck`: the server accepted the sent operation as revision `rev`.
   * When revisions were skipped, the client goes stale and asks for them.
   */
  function ServerAckStep(s: ClientState, revision: int, rev: int): Outcome {
    match s
    case AwaitingConfirm(o) =>
      if rev - revision > 1 then Outcome(Stale(o, rev), revision, [GetOperations(revision, rev - 1)], None)
      else Outcome(Synchronized, rev, [], None)
    case AwaitingWithBuffer(o, b) =>
      if rev - revision > 1 then Outcome(StaleWithBuffer(o, b, rev), revision, [GetOperations(revision, rev - 1)], None)
      else Outcome(AwaitingConfirm(b), rev, [SendOperation(rev, b)], None)
    case _ => Outcome(s, revision, [], Some(NoPendingOperation))
  }

  /** `serverReconnect`: the states with a `resend` send the outstanding operation again. */
  function ReconnectEffects(s: ClientState, revision: int): seq<Effect> {
    if s.AwaitingConfirm? || s.AwaitingWithBuffer? then [SendOperation(revision, s.outstanding)] else []
  }

  /** `transformSelection`: a selection in the server's document, moved into the client's. */
  function ClientTransformSelection(s: ClientState, sel: Selection): Selection {
    match s
    case AwaitingConfirm(o) => TransformSelection(sel, o)
    case AwaitingWithBuffer(o, b) => TransformSelection(TransformSelection(sel, o), b)
    case _ => sel
  }

  /**
   * The loop of `StaleWithBuffer.applyOperations`: each missed operation is
   * transformed against the acknowledged operation, and its transformed
   * version against the buffer; gives the new acknowledged operation, the
   * new buffer and what is applied.
   */
  function BufferedRebase(ack: TextOp, buffer: TextOp, ops: seq<TextOp>): (r: Result<(TextOp, TextOp, seq<TextOp>), OpError>)
    ensures ops == [] ==> r == Success((ack, buffer, []))
    ensures r.Failure? ==> r.error == TransformLengthMismatch
  {
    if ops == [] then Success((ack, buffer, []))
    else
      var prev :- BufferedRebase(ack, buffer, ops[..|ops| - 1]);
      var pair1 :- Transform(prev.0, ops[|ops| - 1]);
      var pair2 :- Transform(prev.1, pair1.1);
      Success((pair1.0, pair2.0, prev.2 + [pair2.1]))
  }

  /**
   * The interleaved loop is two rebases: the acknowledged operation through
   * the missed operations, and the buffer through those missed operations as
   * they apply after the acknowledged one.
   */
  lemma {:induction false} BufferedRebaseSpec(ack: TextOp, buffer: TextOp, ops: seq<TextOp>)
    ensures BufferedRebase(ack, buffer, ops).Success?
        <==> Rebase(ack, ops).Success? && Rebase(buffer, Rebase(ack, ops).value.1).Success?
    ensures BufferedRebase(ack, buffer, ops).Success? ==>
      BufferedRebase(ack, buffer, ops).value
        == (Rebase(ack, ops).value.0, Rebase(buffer, Rebase(ack, ops).value.1).value.0,
            Rebase(buffer, Rebase(ack, ops).value.1).value.1)
    decreases |ops|
  {
    if ops != [] {
      var init, c := ops[..|ops| - 1], ops[|ops| - 1];
      assert ops == init + [c];
      BufferedRebaseSpec(ack, buffer, init);
      RebaseSnoc(ack, init, c);
      var ra := Rebase(ack, init);
      if ra.Success? && Transform(ra.value.0, c).Success? {
        var pair1 := Transform(ra.value.0, c).value;
        RebaseSnoc(buffer, ra.value.1, pair1.1);
      } else if ra.Success? {
        assert Rebase(ack, ops).Failure?;
      }
    }
  }

  /** The operations the effects send, in order. */
  function Sent(effects: seq<Effect>): (r: seq<TextOp>)
    ensures |r| <= |effects|
  {
    if effects == [] then []
    else (if effects[0].SendOperation? then [effects[0].operation] else []) + Sent(effects[1..])
  }

  /** The operations the effects apply to the editor, in order. */
  function Applied(effects: seq<Effect>): (r: seq<TextOp>)
    ensures |r| <= |effects|
  {
    if effects == [] then []
    else (if effects[0].ApplyOperation? then [effects[0].operation] else []) + Applied(effects[1..])
  }

  /** Applying every operation of a run, as effects. */
  function Applies(ops: seq<TextOp>): (r: seq<Effect>)
    ensures |r| == |ops|
    ensures Applied(r) == ops && Sent(r) == []
  {
    if ops == [] then []
    else
      var r := [ApplyOperation(ops[0])] + Applies(ops[1..]);
      assert r[0] == ApplyOperation(ops[0]) && r[1..] == Applies(ops[1..]);
      r
  }

  lemma {:induction false} AppliesSnoc(ops: seq<TextOp>, op: TextOp)
    ensures Applies(ops + [op]) == Applies(ops) + [ApplyOperation(op)]
  {
    if ops == [] {
      assert Applies([op]) == [ApplyOperation(op)] + Applies([]) by { assert [op][1..] == []; }
    } else {
      assert (ops + [op])[0] == ops[0] && (ops + [op])[1..] == ops[1..] + [op];
      AppliesSnoc(ops[1..], op);
    }
  }

  // ---------------------------------------------------------------------
  // One operation in flight.
  // ---------------------------------------------------------------------

  /**
   * A call sends an operation only when that operation becomes the one in
   * flight: from a state with none, or on the acknowledgement of the one
   * before.  So there is never more than one unacknowledged operation, and
   * it is the state's outstanding operation.  A local edit sends only from
   * the synchronized state.
   */
  lemma ApplyClientInFlight(s: ClientState, revision: int, op: TextOp)
    ensures var o := ApplyClientStep(s, revision, op);
      && Sent(o.effects) == (if s.Synchronized? then [op] else [])
      && (o.error.None? ==> InFlight(o.state) == InFlight(s) + |Sent(o.effects)|)
      && (o.error.Some? ==> o.state == s)
  {
    assert Sent([SendOperation(revision, op)]) == [op] by {
      assert [SendOperation(revision, op)][1..] == [];
    }
  }

  /** A server operation sends nothing and leaves the operation in flight in flight. */
  lemma ApplyServerInFlight(s: ClientState, revision: int, rev: int, op: TextOp)
    ensures var o := ApplyServerStep(s, revision, rev, op);
      Sent(o.effects) == [] && InFlight(o.state) == InFlight(s)
  {
    var o := ApplyServerStep(s, revision, rev, op);
    if o.effects != [] {
      assert Sent(o.effects) == [] by { assert o.effects[1..] == []; }
    }
  }

  /** An acknowledgement releases the operation in flight and sends at most the buffer, which takes its place. */
  lemma ServerAckInFlight(s: ClientState, revision: int, rev: int)
    ensures var o := ServerAckStep(s, revision, rev);
      && (o.error.None? <==> InFlight(s) == 1)
      && (o.error.None? ==> InFlight(o.state) + 1 == InFlight(s) + |Sent(o.effects)|)
      && (Sent(o.effects) != [] ==> o.state.AwaitingConfirm? && Sent(o.effects) == [o.state.outstanding])
  {
    var o := ServerAckStep(s, revision, rev);
    if o.effects != [] {
      assert o.effects[1..] == [];
    }
  }

  /** Reconnecting resends the operation in flight, if there is one. */
  lemma ReconnectInFlight(s: ClientState, revision: int)
    ensures Sent(ReconnectEffects(s, revision)) == (if InFlight(s) == 1 then [s.outstanding] else [])
  {
    var e := ReconnectEffects(s, revision);
    if e != [] {
      assert e[1..] == [];
    }
  }

  /**
   * `applyServer` outside the stale states throws "Invalid revision." exactly
   * when `rev` skips a revision; otherwise the client takes `rev` as its
   * revision, even when transforming then throws.
   */
  lemma ApplyServerRevision(s: ClientState, revision: int, rev: int, op: TextOp)
    ensures s.Stale? || s.StaleWithBuffer? ==>
      ApplyServerStep(s, revision, rev, op) == Outcome(s, revision, [], Some(IgnoredServerChange))
    ensures !(s.Stale? || s.StaleWithBuffer?) ==>
      && (ApplyServerStep(s, revision, rev, op).error == Some(InvalidRevision) <==> rev - revision > 1)
      && (rev - revision <= 1 ==> ApplyServerStep(s, revision, rev, op).revision == rev)
  {
  }

  // ---------------------------------------------------------------------
  // The client's document against the server's.
  // ---------------------------------------------------------------------

  /**
   * How the client's document `doc` follows from `server`, the server's
   * document at the client's revision: through the operation in flight, or
   * acknowledged, and then the buffer.
   */
  predicate Consistent(s: ClientState, server: string, doc: string) {
    match s
    case Synchronized => doc == server
    case AwaitingConfirm(o) => Apply(o, server) == Success(doc)
    case AwaitingWithBuffer(o, b) => Apply(o, server).Success? && Apply(b, Apply(o, server).value) == Success(doc)
    case Stale(a, _) => Apply(a, server) == Success(doc)
    case StaleWithBuffer(a, b, _) => Apply(a, server).Success? && Apply(b, Apply(a, server).value) == Success(doc)
  }

  /** A local edit of the client's document keeps it consistent, and applies nothing. */
  lemma ApplyClientConsistent(s: ClientState, revision: int, server: string, doc: string, op: TextOp)
    requires Consistent(s, server, doc) && Apply(op, doc).Success?
    ensures var o := ApplyClientStep(s, revision, op);
      && o.error.None? && o.revision == revision && Applied(o.effects) == []
      && Consistent(o.state, server, Apply(op, doc).value)
  {
    assert Applied([SendOperation(revision, op)]) == [] by {
      assert [SendOperation(revision, op)][1..] == [];
    }
    match s
    case AwaitingWithBuffer(o, b) => ComposeApply(b, op, Apply(o, server).value);
    case StaleWithBuffer(a, b, _) => ComposeApply(b, op, Apply(a, server).value);
    case _ =>
  }

  /**
   * The server's next operation, arriving at the next revision, is applied
   * to the client's document in a form that keeps it consistent with the
   * server's new document.
   */
  lemma ApplyServerConsistent(s: ClientState, revision: int, server: string, doc: string, rev: int, op: TextOp)
    requires Consistent(s, server, doc) && !s.Stale? && !s.StaleWithBuffer?
    requires rev - revision <= 1 && Apply(op, server).Success?
    ensures var o := ApplyServerStep(s, revision, rev, op);
      && o.error.None? && o.revision == rev
      && ApplyAll(Applied(o.effects), doc).Success?
      && Consistent(o.state, Apply(op, server).value, ApplyAll(Applied(o.effects), doc).value)
  {
    var o := ApplyServerStep(s, revision, rev, op);
    assert o.effects[1..] == [];
    assert Applied(o.effects) == [o.effects[0].operation];
    ApplyAllSingle(o.effects[0].operation, doc);
    match s
    case Synchronized =>
    case AwaitingConfirm(out) =>
      TransformApply(out, op, server);
    case AwaitingWithBuffer(out, b) =>
      TransformApply(out, op, server);
      var pair1 := Transform(out, op).value;
      TransformApply(b, pair1.1, Apply(out, server).value);
  }

  /**
   * An acknowledgement of the operation in flight at the next revision
   * makes the server's document the one that operation led to; one that
   * skips revisions leaves the client at its revision, now stale.
   */
  lemma ServerAckConsistent(s: ClientState, revision: int, server: string, doc: string, rev: int)
    requires Consistent(s, server, doc) && (s.AwaitingConfirm? || s.AwaitingWithBuffer?)
    ensures Apply(s.outstanding, server).Success?
    ensures var o := ServerAckStep(s, revision, rev);
      && o.error.None? && Applied(o.effects) == []
      && (rev - revision <= 1 ==> o.revision == rev && Consistent(o.state, Apply(s.outstanding, server).value, doc))
      && (rev - revision > 1 ==>
            && o.revision == revision && (o.state.Stale? || o.state.StaleWithBuffer?)
            && o.state.ackRevision == rev && Consistent(o.state, server, doc))
  {
    var o := ServerAckStep(s, revision, rev);
    if o.effects != [] {
      assert Applied(o.effects) == [] by { assert o.effects[1..] == []; }
    }
  }

  /**
   * Stale: the acknowledged operation rebased through the missed operations
   * is what the server recorded at the acknowledged revision, and applying
   * the missed operations, transformed, makes the client's document the
   * server's document there.
   */
  lemma StaleCatchUp(a: TextOp, ackRev: int, server: string, doc: string, ops: seq<TextOp>)
    requires Consistent(Stale(a, ackRev), server, doc) && ApplyAll(ops, server).Success?
    ensures Rebase(a, ops).Success?
    ensures Apply(Rebase(a, ops).value.0, ApplyAll(ops, server).value).Success?
    ensures ApplyAll(Applied(Applies(Rebase(a, ops).value.1)), doc)
         == Apply(Rebase(a, ops).value.0, ApplyAll(ops, server).value)
  {
    RebaseApply(a, ops, server);
  }

  /**
   * Stale with a buffer: after the missed operations, the rebased buffer is
   * what the client's document adds to the server's document at the
   * acknowledged revision.
   */
  lemma StaleWithBufferCatchUp(a: TextOp, b: TextOp, ackRev: int, server: string, doc: string, ops: seq<TextOp>)
    requires Consistent(StaleWithBuffer(a, b, ackRev), server, doc) && ApplyAll(ops, server).Success?
    ensures BufferedRebase(a, b, ops).Success?
    ensures Apply(BufferedRebase(a, b, ops).value.0, ApplyAll(ops, server).value).Success?
    ensures ApplyAll(Applied(Applies(BufferedRebase(a, b, ops).value.2)), doc).Success?
    ensures Consistent(AwaitingConfirm(BufferedRebase(a, b, ops).value.1),
                       Apply(BufferedRebase(a, b, ops).value.0, ApplyAll(ops, server).value).value,
                       ApplyAll(Applied(Applies(BufferedRebase(a, b, ops).value.2)), doc).value)
  {
    RebaseApply(a, ops, server);
    var ra := Rebase(a, ops).value;
    var da := Apply(a, server).value;
    RebaseApply(b, ra.1, da);
    BufferedRebaseSpec(a, b, ops);
  }

  /**
   * The selection of another user, inside the server's document, lands
   * inside the client's document (outside the stale states, where it is
   * passed on as it is).
   */
  lemma ClientSelectionWithin(s: ClientState, server: string, doc: string, sel: Selection)
    requires Consistent(s, server, doc) && !s.Stale? && !s.StaleWithBuffer?
    requires WithinDocument(sel, |server|)
    ensures WithinDocument(ClientTransformSelection(s, sel), |doc|)
  {
    match s
    case Synchronized =>
    case AwaitingConfirm(o) => TransformSelectionWithin(sel, o);
    case AwaitingWithBuffer(o, b) =>
      TransformSelectionWithin(sel, o);
      TransformSelectionWithin(TransformSelection(sel, o), b);
  }

  // ---------------------------------------------------------------------
  // The client object.
  // ---------------------------------------------------------------------

  class Client {
    /** The next revision the client expects from the server. */
    var revision: int
    var state: ClientState
    /** Every effect asked for so far, in order. */
    var effects: seq<Effect>

    constructor (revision: int)
      ensures this.revision == revision && state == Synchronized && effects == []
    {
      this.revision := revision;
      state := Synchronized;
      effects := [];
    }

    /** Sets the state, revision and effects a call on the current state gives. */
    method Take(o: Outcome) returns (error: Option<ClientError>)
      modifies this
      ensures state == o.state && revision == o.revision && effects == old(effects) + o.effects
      ensures error == o.error
    {
      state := o.state;
      revision := o.revision;
      effects := effects + o.effects;
      error := o.error;
    }

    method ApplyClient(op: TextOp) returns (error: Option<ClientError>)
      modifies this
      ensures var o := ApplyClientStep(old(state), old(revision), op);
        state == o.state && revision == o.revision && effects == old(effects) + o.effects && error == o.error
    {
      error := Take(ApplyClientStep(state, revision, op));
    }

    method ApplyServer(rev: int, op: TextOp) returns (error: Option<ClientError>)
      modifies this
      ensures var o := ApplyServerStep(old(state), old(revision), rev, op);
        state == o.state && revision == o.revision && effects == old(effects) + o.effects && error == o.error
    {
      error := Take(ApplyServerStep(state, revision, rev, op));
    }

    method ServerAck(rev: int) returns (error: Option<ClientError>)
      modifies this
      ensures var o := ServerAckStep(old(state), old(revision), rev);
        state == o.state && revision == o.revision && effects == old(effects) + o.effects && error == o.error
    {
      error := Take(ServerAckStep(state, revision, rev));
    }

    method ServerReconnect()
      modifies this
      ensures state == old(state) && revision == old(revision)
      ensures effects == old(effects) + ReconnectEffects(old(state), old(revision))
    {
      effects := effects + ReconnectEffects(state, revision);
    }

    /**
     * `applyOperations`: the operations the client missed while stale, in
     * order (`head` is not used).  The states without this method throw.
     */
    method ApplyOperations(head: int, ops: seq<TextOp>) returns (error: Option<ClientError>)
      modifies this
      ensures !old(state).Stale? && !old(state).StaleWithBuffer? ==>
        && error == Some(NotAFunction("applyOperations"))
        && state == old(state) && revision == old(revision) && effects == old(effects)
      ensures old(state).Stale? ==>
        var a, ackRev := old(state).acknowledged, old(state).ackRevision;
        if Rebase(a, ops).Success? then
          && error.None? && state == Synchronized && revision == ackRev
          && effects == old(effects) + Applies(Rebase(a, ops).value.1)
        else
          && error == Some(OperationFailed(TransformLengthMismatch)) && revision == old(revision)
          && exists k | 0 <= k < |ops| ::
               && Rebase(a, ops[..k]).Success? && Rebase(a, ops[..k + 1]).Failure?
               && state == Stale(Rebase(a, ops[..k]).value.0, ackRev)
               && effects == old(effects) + Applies(Rebase(a, ops[..k]).value.1)
      ensures old(state).StaleWithBuffer? ==>
        var a, b, ackRev := old(state).acknowledged, old(state).buffer, old(state).ackRevision;
        if BufferedRebase(a, b, ops).Success? then
          var r := BufferedRebase(a, b, ops).value;
          && error.None? && state == AwaitingConfirm(r.1) && revision == ackRev
          && effects == old(effects) + Applies(r.2) + [SendOperation(ackRev, r.1)]
        else
          && error == Some(OperationFailed(TransformLengthMismatch)) && revision == old(revision)
          && exists k | 0 <= k < |ops| ::
               && BufferedRebase(a, b, ops[..k]).Success? && BufferedRebase(a, b, ops[..k + 1]).Failure?
               && state == StaleWithBuffer(BufferedRebase(a, b, ops[..k]).value.0,
                                           BufferedRebase(a, b, ops[..k]).value.1, ackRev)
               && effects == old(effects) + Applies(BufferedRebase(a, b, ops[..k]).value.2)
    {
      if state.Stale? {
        error := StaleApplyOperations(ops);
      } else if state.StaleWithBuffer? {
        error := BufferedApplyOperations(ops);
      } else {
        error := Some(NotAFunction("applyOperations"));
      }
    }

    /** `Stale.applyOperations`: the acknowledged operation is rebased in place, step by step. */
    method StaleApplyOperations(ops: seq<TextOp>) returns (error: Option<ClientError>)
      requires state.Stale?
      modifies this
      ensures
        var a, ackRev := old(state).acknowledged, old(state).ackRevision;
        if Rebase(a, ops).Success? then
          && error.None? && state == Synchronized && revision == ackRev
          && effects == old(effects) + Applies(Rebase(a, ops).value.1)
        else
          && error == Some(OperationFailed(TransformLengthMismatch)) && revision == old(revision)
          && exists k | 0 <= k < |ops| ::
               && Rebase(a, ops[..k]).Success? && Rebase(a, ops[..k + 1]).Failure?
               && state == Stale(Rebase(a, ops[..k]).value.0, ackRev)
               && effects == old(effects) + Applies(Rebase(a, ops[..k]).value.1)
    {
      var a, ackRev := state.acknowledged, state.ackRevision;
      ghost var e0 := effects;
      ghost var applied: seq<TextOp> := [];
      var i := 0;
      while i < |ops|
        invariant 0 <= i <= |ops| && revision == old(revision) && e0 == old(effects)
        invariant state.Stale? && state.ackRevision == ackRev
        invariant Rebase(a, ops[..i]) == Success((state.acknowledged, applied))
        invariant effects == e0 + Applies(applied)
      {
        StaleStep(a, ops, i);
        var pair := Transform(state.acknowledged, ops[i]);
        if pair.Failure? {
          assert Rebase(a, ops[..i]).Success? && Rebase(a, ops[..i + 1]).Failure?;
          return Some(OperationFailed(pair.error));
        }
        Assoc(e0, Applies(applied), [ApplyOperation(pair.value.1)]);
        effects := effects + [ApplyOperation(pair.value.1)];
        applied := applied + [pair.value.1];
        state := Stale(pair.value.0, ackRev);
        i := i + 1;
      }
      assert ops[..i] == ops;
      revision := ackRev;
      state := Synchronized;
      return None;
    }

    /** `StaleWithBuffer.applyOperations`: the acknowledged operation and the buffer are rebased in place. */
    method BufferedApplyOperations(ops: seq<TextOp>) returns (error: Option<ClientError>)
      requires state.StaleWithBuffer?
      modifies this
      ensures
        var a, b, ackRev := old(state).acknowledged, old(state).buffer, old(state).ackRevision;
        if BufferedRebase(a, b, ops).Success? then
          var r := BufferedRebase(a, b, ops).value;
          && error.None? && state == AwaitingConfirm(r.1) && revision == ackRev
          && effects == old(effects) + Applies(r.2) + [SendOperation(ackRev, r.1)]
        else
          && error == Some(OperationFailed(TransformLengthMismatch)) && revision == old(revision)
          && exists k | 0 <= k < |ops| ::
               && BufferedRebase(a, b, ops[..k]).Success? && BufferedRebase(a, b, ops[..k + 1]).Failure?
               && state == StaleWithBuffer(BufferedRebase(a, b, ops[..k]).value.0,
                                           BufferedRebase(a, b, ops[..k]).value.1, ackRev)
               && effects == old(effects) + Applies(BufferedRebase(a, b, ops[..k]).value.2)
    {
      var a, b, ackRev := state.acknowledged, state.buffer, state.ackRevision;
      ghost var e0 := effects;
      ghost var applied: seq<TextOp> := [];
      var i := 0;
      while i < |ops|
        invariant 0 <= i <= |ops| && revision == old(revision) && e0 == old(effects)
        invariant state.StaleWithBuffer? && state.ackRevision == ackRev
        invariant BufferedRebase(a, b, ops[..i]) == Success((state.acknowledged, state.buffer, applied))
        invariant effects == e0 + Applies(applied)
      {
        BufferedStep(a, b, ops, i);
        var pair1 := Transform(state.acknowledged, ops[i]);
        if pair1.Failure? {
          assert BufferedRebase(a, b, ops[..i]).Success? && BufferedRebase(a, b, ops[..i + 1]).Failure?;
          return Some(OperationFailed(pair1.error));
        }
        var pair2 := Transform(state.buffer, pair1.value.1);
        if pair2.Failure? {
          assert BufferedRebase(a, b, ops[..i]).Success? && BufferedRebase(a, b, ops[..i + 1]).Failure?;
          return Some(OperationFailed(pair2.error));
        }
        Assoc(e0, Applies(applied), [ApplyOperation(pair2.value.1)]);
        effects := effects + [ApplyOperation(pair2.value.1)];
        applied := applied + [pair2.value.1];
        state := StaleWithBuffer(pair1.value.0, pair2.value.0, ackRev);
        i := i + 1;
      }
      assert ops[..i] == ops;
      revision := ackRev;
      effects := effects + [SendOperation(revision, state.buffer)];
      state := AwaitingConfirm(state.buffer);
      return None;
    }

    /** `transformSelection`, on the current state. */
    method TransformSelection(sel: Selection) returns (r: Selection)
      ensures r == ClientTransformSelection(state, sel)
    {
      r := ClientTransformSelection(state, sel);
    }
  }

  /** One step of the `Stale.applyOperations` loop: the transform fails the whole run, or extends the rebased prefix by one. */
  lemma StaleStep(a: TextOp, ops: seq<TextOp>, i: nat)
    requires i < |ops| && Rebase(a, ops[..i]).Success?
    ensures Transform(Rebase(a, ops[..i]).value.0, ops[i]).Failure? ==>
      Rebase(a, ops[..i + 1]).Failure? && Rebase(a, ops).Failure?
    ensures Transform(Rebase(a, ops[..i]).value.0, ops[i]).Success? ==>
      var prev, pair := Rebase(a, ops[..i]).value, Transform(Rebase(a, ops[..i]).value.0, ops[i]).value;
      && Rebase(a, ops[..i + 1]) == Success((pair.0, prev.1 + [pair.1]))
      && Applies(prev.1 + [pair.1]) == Applies(prev.1) + [ApplyOperation(pair.1)]
  {
    assert ops[..i + 1] == ops[..i] + [ops[i]];
    RebaseSnoc(a, ops[..i], ops[i]);
    if Transform(Rebase(a, ops[..i]).value.0, ops[i]).Failure? {
      RebasePrefixFails(a, ops, i + 1);
    } else {
      var prev, pair := Rebase(a, ops[..i]).value, Transform(Rebase(a, ops[..i]).value.0, ops[i]).value;
      AppliesSnoc(prev.1, pair.1);
    }
  }

  /** One step of the `StaleWithBuffer.applyOperations` loop. */
  lemma BufferedStep(a: TextOp, b: TextOp, ops: seq<TextOp>, i: nat)
    requires i < |ops| && BufferedRebase(a, b, ops[..i]).Success?
    ensures var prev := BufferedRebase(a, b, ops[..i]).value;
      Transform(prev.0, ops[i]).Failure? ==> BufferedRebase(a, b, ops[..i + 1]).Failure? && BufferedRebase(a, b, ops).Failure?
    ensures var prev := BufferedRebase(a, b, ops[..i]).value;
      Transform(prev.0, ops[i]).Success? && Transform(prev.1, Transform(prev.0, ops[i]).value.1).Failure? ==>
        BufferedRebase(a, b, ops[..i + 1]).Failure? && BufferedRebase(a, b, ops).Failure?
    ensures var prev := BufferedRebase(a, b, ops[..i]).value;
      Transform(prev.0, ops[i]).Success? && Transform(prev.1, Transform(prev.0, ops[i]).value.1).Success? ==>
        var pair1 := Transform(prev.0, ops[i]).value;
        var pair2 := Transform(prev.1, pair1.1).value;
        && BufferedRebase(a, b, ops[..i + 1]) == Success((pair1.0, pair2.0, prev.2 + [pair2.1]))
        && Applies(prev.2 + [pair2.1]) == Applies(prev.2) + [ApplyOperation(pair2.1)]
  {
    assert ops[..i + 1] == ops[..i] + [ops[i]];
    BufferedSnoc(a, b, ops[..i], ops[i]);
    var prev := BufferedRebase(a, b, ops[..i]).value;
    if BufferedRebase(a, b, ops[..i + 1]).Failure? {
      BufferedPrefixFails(a, b, ops, i + 1);
    } else {
      AppliesSnoc(prev.2, Transform(prev.1, Transform(prev.0, ops[i]).value.1).value.1);
    }
  }

  /** One more missed operation is one more step of the interleaved loop. */
  lemma BufferedSnoc(a: TextOp, b: TextOp, ops: seq<TextOp>, c: TextOp)
    ensures BufferedRebase(a, b, ops + [c])
         == if BufferedRebase(a, b, ops).Failure? then Failure(TransformLengthMismatch)
            else
              var prev := BufferedRebase(a, b, ops).value;
              if Transform(prev.0, c).Failure? then Failure(TransformLengthMismatch)
              else if Transform(prev.1, Transform(prev.0, c).value.1).Failure? then Failure(TransformLengthMismatch)
              else
                var pair1 := Transform(prev.0, c).value;
                var pair2 := Transform(prev.1, pair1.1).value;
                Success((pair1.0, pair2.0, prev.2 + [pair2.1]))
  {
    assert (ops + [c])[..|ops|] == ops;
  }

  /** Once a prefix of the missed operations fails, the whole interleaved loop does. */
  lemma {:induction false} BufferedPrefixFails(a: TextOp, b: TextOp, ops: seq<TextOp>, k: nat)
    requires k <= |ops| && BufferedRebase(a, b, ops[..k]).Failure?
    ensures BufferedRebase(a, b, ops).Failure?
    decreases |ops|
  {
    if k < |ops| {
      var init := ops[..|ops| - 1];
      assert init[..k] == ops[..k];
      BufferedPrefixFails(a, b, init, k);
    } else {
      assert ops[..k] == ops;
    }
  }
}
