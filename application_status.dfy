/**
 * The apply-confirmation control of the job detail page
 * (src/components/ApplicationStatus.tsx): it shows the job's status, lets
 * the user unmark an applied job at once, and asks for confirmation before
 * marking a job as applied. It never writes the status itself; it reports
 * the wanted status through the `onStatusChange` callback, whose calls the
 * model records in a ghost log.
 */
module ApplicationStatus {

  const Applied: string := "Applied"
  const NotApplied: string := "Not Applied"

  class StatusToggle {
    /** The `status` prop. */
    var status: string
    /** Whether the confirmation dialog is open. */
    var showConfirm: bool
    /** Every value passed to `onStatusChange`, oldest first. */
    ghost var emitted: seq<string>
    /** How many times the dialog went from closed to open. */
    ghost var openings: nat

    /**
     * The callback has only ever been given one of the two statuses, and
     * every "Applied" it was given used up an opening of the dialog: each
     * opening allows at most one, and an open dialog still holds its own.
     */
    ghost predicate Valid()
      reads this
    {
      && (forall i :: 0 <= i < |emitted| ==> emitted[i] == Applied || emitted[i] == NotApplied)
      && multiset(emitted)[Applied] + (if showConfirm then 1 else 0) <= openings
    }

    /** `isApplied`: only the exact string "Applied" counts as applied. */
    predicate IsApplied()
      reads this
    {
      status == Applied
    }

    /** Mounting with a status: the dialog starts closed and nothing has been reported. */
    constructor (status: string)
      ensures Valid()
      ensures this.status == status && !showConfirm && emitted == [] && openings == 0
    {
      this.status := status;
      showConfirm := false;
      emitted := [];
      openings := 0;
    }

    /**
     * A call of `onStatusChange(value)`. Reporting "Applied" needs the open
     * dialog, which the caller then closes.
     */
    method Emit(value: string)
      requires Valid() && (value == NotApplied || (value == Applied && showConfirm))
      modifies this`emitted
      ensures emitted == old(emitted) + [value]
      ensures value == NotApplied ==> Valid()
      ensures value == Applied ==> multiset(emitted)[Applied] <= openings
      ensures forall i :: 0 <= i < |emitted| ==> emitted[i] == Applied || emitted[i] == NotApplied
    {
      emitted := emitted + [value];
    }

    /**
     * `handleToggle`: an applied job is unmarked at once and the dialog
     * closed; any other status only opens the dialog.
     */
    method HandleToggle()
      requires Valid()
      modifies this
      ensures Valid() && status == old(status)
      ensures old(status) == Applied ==> emitted == old(emitted) + [NotApplied] && !showConfirm && openings == old(openings)
      ensures old(status) != Applied ==>
        emitted == old(emitted) && showConfirm && openings == old(openings) + (if old(showConfirm) then 0 else 1)
    {
      if IsApplied() {
        Emit(NotApplied);
        showConfirm := false;
      } else {
        if !showConfirm {
          openings := openings + 1;
        }
        showConfirm := true;
      }
    }

    /**
     * `handleConfirm`: reports "Applied" and closes the dialog. The Confirm
     * button exists only while the dialog is open.
     */
    method HandleConfirm()
      requires Valid() && showConfirm
      modifies this
      ensures Valid() && status == old(status) && openings == old(openings)
      ensures emitted == old(emitted) + [Applied] && !showConfirm
    {
      Emit(Applied);
      showConfirm := false;
    }

    /**
     * `handleCancel`: closes the dialog and reports nothing. The Cancel
     * button exists only while the dialog is open.
     */
    method HandleCancel()
      requires Valid() && showConfirm
      modifies this
      ensures Valid() && status == old(status) && openings == old(openings)
      ensures emitted == old(emitted) && !showConfirm
    {
      showConfirm := false;
    }

    /**
     * The parent renders the control again with a new `status` (typically
     * after acting on a reported change); the dialog flag is local state and
     * survives.
     */
    method ReceiveStatus(newStatus: string)
      requires Valid()
      modifies this`status
      ensures Valid() && status == newStatus
    {
      status := newStatus;
    }
  }

  /** Asking to mark a job as applied and then cancelling reports nothing and closes the dialog. */
  method RequestThenCancel(t: StatusToggle)
    requires t.Valid() && t.status != Applied
    modifies t
    ensures t.Valid() && t.emitted == old(t.emitted) && !t.showConfirm && t.status == old(t.status)
  {
    t.HandleToggle();
    assert t.showConfirm;
    t.HandleCancel();
  }

  /** Asking to mark a job as applied and confirming reports exactly "Applied", once. */
  method RequestThenConfirm(t: StatusToggle)
    requires t.Valid() && t.status != Applied
    modifies t
    ensures t.Valid() && t.emitted == old(t.emitted) + [Applied] && !t.showConfirm
    ensures t.openings == old(t.openings) + (if old(t.showConfirm) then 0 else 1)
  {
    t.HandleToggle();
    t.HandleConfirm();
  }

  /** Pressing the toggle again while the dialog is open opens nothing new; one confirmation, one "Applied". */
  method RequestTwiceThenConfirm(t: StatusToggle)
    requires t.Valid() && t.status != Applied && !t.showConfirm
    modifies t
    ensures t.Valid() && t.emitted == old(t.emitted) + [Applied] && !t.showConfirm
    ensures t.openings == old(t.openings) + 1
  {
    t.HandleToggle();
    t.HandleToggle();
    t.HandleConfirm();
  }

  /** A full cycle: mark as applied, the parent stores it, then unmark, which needs no confirmation. */
  method ApplyThenUnmark(t: StatusToggle)
    requires t.Valid() && t.status != Applied
    modifies t
    ensures t.Valid() && t.emitted == old(t.emitted) + [Applied, NotApplied] && !t.showConfirm
  {
    t.HandleToggle();
    t.HandleConfirm();
    t.ReceiveStatus(Applied);
    t.HandleToggle();
  }
}
