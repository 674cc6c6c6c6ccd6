/**
 The delegated credential of one operation (restrictedAccess in
 pkg/executionruntime/permissions.go, LimitDeadline in pkg/permissions/access.go). Times are
 integers; None is the absence of a deadline.
 */
module Delegation {
  import opened Text

  predicate NoLaterThan(a: Option<int>, b: Option<int>) {
    b.Some? ==> a.Some? && a.value <= b.value
  }

  function Earlier(a: Option<int>, b: int): Option<int> {
    if a.Some? && a.value <= b then a else Some(b)
  }

  /** A credential and the deadline it was issued under. */
  datatype Credential = Credential(serial: nat, bound: Option<int>)

  /** What the issuer returns: a lease for the deadline asked, or an error with whatever lease it leaves behind. */
  datatype Issue = Works | Fails(leftover: Option<Credential>)

  class RestrictedAccess {
    var deadline: Option<int>        // of the operation scope, a.ctx
    var child: Option<Credential>
    var issuedDeadline: Option<int>
    var issued: nat

    /** The lease at hand was issued under the recorded deadline. */
    ghost predicate Valid()
      reads this
    {
      child.Some? ==> child.value.bound == issuedDeadline
    }

    constructor (scope: Option<int>)
      ensures Valid() && deadline == scope && child == None && issued == 0
    {
      deadline, child, issuedDeadline, issued := scope, None, None, 0;
    }

    /** Deadlines only move closer, and no credential is touched. */
    method LimitDeadline(d: int)
      modifies this`deadline
      ensures deadline == Earlier(old(deadline), d)
      ensures NoLaterThan(deadline, old(deadline)) && NoLaterThan(deadline, Some(d))
    {
      if deadline.None? || d < deadline.value {
        deadline := Some(d);
      }
    }

    /**
     The credential handed out never outlives the operation scope. It is issued anew exactly when there
     is none yet or the scope has become narrower than the one it was issued under. An issuer that fails
     may leave a lease behind; it is kept with the old deadline, which spoils this unless that was its own.
     */
    method Get(leaseHeld: bool, issue: Issue) returns (credential: Option<Credential>)
      modifies this`child, this`issuedDeadline, this`issued
      ensures var reusable := old(child.Some? && NoLaterThan(issuedDeadline, deadline));
              && (credential.Some? <==> reusable || (leaseHeld && issue.Works?))
              && (credential.Some? ==> credential == child)
              && (reusable || !leaseHeld ==> child == old(child) && issuedDeadline == old(issuedDeadline) && issued == old(issued))
              && (!reusable && leaseHeld && issue.Works? ==>
                    && child == Some(Credential(old(issued), deadline)) && issued == old(issued) + 1
                    && issuedDeadline == deadline)
              && (!reusable && leaseHeld && issue.Fails? ==>
                    child == issue.leftover && issuedDeadline == old(issuedDeadline) && issued == old(issued))
      ensures old(Valid()) && credential.Some? ==> NoLaterThan(credential.value.bound, deadline)
      ensures var failed := leaseHeld && issue.Fails? && !old(child.Some? && NoLaterThan(issuedDeadline, deadline));
              old(Valid()) ==>
                (Valid() <==> failed && issue.leftover.Some? ==> issue.leftover.value.bound == issuedDeadline)
    {
      var d := deadline;
      if child.None? || (d.Some? && (issuedDeadline.None? || d.value < issuedDeadline.value)) {
        if !leaseHeld {
          return None;
        }
        if issue.Fails? {
          child := issue.leftover;
          return None;
        }
        child := Some(Credential(issued, d));
        issued := issued + 1;
        issuedDeadline := d;
      }
      credential := child;
    }
  }
}
