/**
 * The server authority: it holds the current document and the history of
 * every operation it accepted.  An operation made by a client at some
 * revision is rebased through the operations accepted since, then applied
 * and appended.  An optional maximum length stops edits that would grow
 * the document past it.
 */
module ServerModel {
  import opened Wrappers
  import opened TextOperation
  import opened Transformation
  import opened Rebasing

  /** Why `receiveOperation` throws. */
  datatype ServerError =
    | RevisionNotInHistory        // the revision is negative or beyond the history
    | OperationFailed(e: OpError) // the operation does not fit the history or the document

  /** The length guard: only a numeric cap counts, and only an edit that grows the document past it is refused. */
  predicate Refused(documentMaxLength: Option<int>, document: string, newDocument: string) {
    documentMaxLength.Some? && |newDocument| > documentMaxLength.value && |newDocument| > |document|
  }

  /** Refused edits are exactly those that grow the document beyond a cap. */
  lemma RefusedOnlyGrowth(cap: Option<int>, document: string, newDocument: string)
    ensures Refused(cap, document, newDocument) ==> cap.Some? && |newDocument| > |document|
    ensures cap.None? || |newDocument| <= |document| ==> !Refused(cap, document, newDocument)
    ensures cap.Some? && |newDocument| > cap.value && |newDocument| > |document|
            ==> Refused(cap, document, newDocument)
  {
  }

  class Server {
    var document: string
    var operations: seq<TextOp>
    var documentMaxLength: Option<int>

    /** A new server: the given document and history (an empty one when none is given) and no cap. */
    constructor (document: string, operations: Option<seq<TextOp>>)
      ensures this.document == document
      ensures this.operations == (if operations.Some? then operations.value else [])
      ensures documentMaxLength.None?
    {
      this.document := document;
      this.operations := if operations.Some? then operations.value else [];
      documentMaxLength := None;
    }

    method SetDocumentMaxLength(maxLength: Option<int>)
      modifies this
      ensures documentMaxLength == maxLength
      ensures document == old(document) && operations == old(operations)
    {
      documentMaxLength := maxLength;
    }

    /**
     * `receiveOperation`: an operation made at `revision` is rebased against
     * the history from that revision on; unless the cap refuses it, the
     * document becomes the rebased operation applied to it, the rebased
     * operation is appended to the history and returned.  A refused edit
     * returns nothing; nothing changes then, nor when it throws.
     */
    method ReceiveOperation(revision: int, operation: TextOp) returns (r: Result<Option<TextOp>, ServerError>)
      modifies this
      ensures documentMaxLength == old(documentMaxLength)
      ensures revision < 0 || |old(operations)| < revision ==>
        r == Failure(RevisionNotInHistory) && document == old(document) && operations == old(operations)
      ensures 0 <= revision <= |old(operations)| ==>
        var rebased := Rebase(operation, old(operations)[revision..]);
        if rebased.Failure? then
          r == Failure(OperationFailed(rebased.error)) && document == old(document) && operations == old(operations)
        else if Apply(rebased.value.0, old(document)).Failure? then
          r == Failure(OperationFailed(BaseLengthMismatch)) && document == old(document) && operations == old(operations)
        else if Refused(documentMaxLength, old(document), Apply(rebased.value.0, old(document)).value) then
          r == Success(None) && document == old(document) && operations == old(operations)
        else
          && r == Success(Some(rebased.value.0))
          && document == Apply(rebased.value.0, old(document)).value
          && operations == old(operations) + [rebased.value.0]
    {
      if revision < 0 || |operations| < revision {
        return Failure(RevisionNotInHistory);
      }
      var rebased := RebaseThrough(operation, operations[revision..]);
      if rebased.Failure? {
        return Failure(OperationFailed(rebased.error));
      }
      var op := rebased.value;
      var newDocument := Apply(op, document);
      if newDocument.Failure? {
        return Failure(OperationFailed(newDocument.error));
      }
      if Refused(documentMaxLength, document, newDocument.value) {
        return Success(None);
      }
      document := newDocument.value;
      operations := operations + [op];
      return Success(Some(op));
    }
  }

  /** The rebasing loop of `receiveOperation`: `operation := transform(operation, c)[0]` for each `c`. */
  method RebaseThrough(operation: TextOp, concurrent: seq<TextOp>) returns (r: Result<TextOp, OpError>)
    ensures r.Success? <==> Rebase(operation, concurrent).Success?
    ensures r.Success? ==> r.value == Rebase(operation, concurrent).value.0
    ensures r.Failure? ==> r.error == TransformLengthMismatch
  {
    var op := operation;
    var i := 0;
    while i < |concurrent|
      invariant 0 <= i <= |concurrent|
      invariant Rebase(operation, concurrent[..i]).Success?
      invariant op == Rebase(operation, concurrent[..i]).value.0
    {
      assert concurrent[..i + 1] == concurrent[..i] + [concurrent[i]];
      RebaseSnoc(operation, concurrent[..i], concurrent[i]);
      var pair := Transform(op, concurrent[i]);
      if pair.Failure? {
        RebasePrefixFails(operation, concurrent, i + 1);
        return Failure(pair.error);
      }
      op := pair.value.0;
      i := i + 1;
    }
    assert concurrent[..i] == concurrent;
    return Success(op);
  }

  /**
   * When the history leads from `d0` to the server's document and an
   * operation fits the document at its revision, rebasing it succeeds and the
   * rebased operation applies to the server's document; the history with it
   * appended leads from `d0` to the new document, and the client that made the
   * operation reaches that same document by applying the operations it
   * missed, transformed, after its own.
   */
  lemma AcceptConverges(d0: string, history: seq<TextOp>, revision: nat, operation: TextOp)
    requires ApplyAll(history, d0).Success? && revision <= |history|
    requires ApplyAll(history[..revision], d0).Success?
    requires Apply(operation, ApplyAll(history[..revision], d0).value).Success?
    ensures Rebase(operation, history[revision..]).Success?
    ensures Apply(Rebase(operation, history[revision..]).value.0, ApplyAll(history, d0).value).Success?
    ensures ApplyAll(history + [Rebase(operation, history[revision..]).value.0], d0)
         == Apply(Rebase(operation, history[revision..]).value.0, ApplyAll(history, d0).value)
    ensures Apply(Rebase(operation, history[revision..]).value.0, ApplyAll(history, d0).value)
         == ApplyAll(Rebase(operation, history[revision..]).value.1,
                     Apply(operation, ApplyAll(history[..revision], d0).value).value)
  {
    var pre, post := history[..revision], history[revision..];
    assert history == pre + post;
    ApplyAllConcat(pre, post, d0);
    var dr := ApplyAll(pre, d0).value;
    RebaseApply(operation, post, dr);
    var rebased := Rebase(operation, post).value.0;
    ApplyAllConcat(history, [rebased], d0);
    ApplyAllSingle(rebased, ApplyAll(history, d0).value);
  }
}
