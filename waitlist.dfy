/** The waitlist dialog's submission flow: the synchronous checks of `handleSubmit`, its two
    deferred callbacks as explicit steps, `handleClose`, the input's change handler, and the
    browser-stored list of addresses it appends to. */
module Waitlist {
  import opened EmailValidation

  datatype Option<T> = None | Some(value: T)

  const RequiredMessage := "Email is required"
  const InvalidMessage := "Please enter a valid email address"
  const DuplicateMessage := "This email is already on the waitlist"

  /** What the synchronous part of a submission decides about the current input. */
  datatype Check = Blank | Malformed | Passed

  /** The two early returns of `handleSubmit`, in their order: blank after trimming first, then
      the shape test. */
  function CheckInput(email: string): Check {
    if IsBlank(email) then Blank
    else if !ValidateEmail(email) then Malformed
    else Passed
  }

  /** The inline message shown for a check that failed. */
  function CheckMessage(c: Check): string {
    match c
    case Blank => RequiredMessage
    case Malformed => InvalidMessage
    case Passed => ""
  }

  /** The stored list as the deferred step reads it: a missing key reads as the empty list. */
  function LoadWaitlist(stored: Option<seq<string>>): seq<string> {
    match stored
    case None => []
    case Some(list) => list
  }

  /** With the key absent, the first commit of any address appends it and writes the
      one-element list. */
  lemma AbsentStoreFirstCommit(email: string)
    ensures CommitEmail(LoadWaitlist(None), email) == Appended([email])
  {
    assert email !in LoadWaitlist(None);
  }

  predicate NoDuplicates(list: seq<string>) {
    forall i, j :: 0 <= i < j < |list| ==> list[i] != list[j]
  }

  /** What the store is meant to hold: distinct addresses, each accepted by the shape test. */
  predicate WellFormedWaitlist(list: seq<string>) {
    NoDuplicates(list) && forall k :: 0 <= k < |list| ==> ValidateEmail(list[k])
  }

  datatype Commit = Duplicate | Appended(list: seq<string>)

  /** The deferred step's effect on the list: an exact-match membership test, then a push. */
  function CommitEmail(list: seq<string>, email: string): (r: Commit)
    ensures r.Duplicate? <==> email in list
    ensures r.Appended? ==> |r.list| == |list| + 1 && r.list[..|list|] == list && r.list[|list|] == email
    ensures r.Appended? && NoDuplicates(list) ==> NoDuplicates(r.list)
    ensures r.Appended? && WellFormedWaitlist(list) && ValidateEmail(email) ==> WellFormedWaitlist(r.list)
  {
    if email in list then Duplicate else Appended(list + [email])
  }

  /** Committing the same address twice appends it once and then reports it as a duplicate. */
  lemma CommitTwiceIsDuplicate(list: seq<string>, email: string)
    requires email !in list
    ensures CommitEmail(list, email).Appended?
    ensures CommitEmail(CommitEmail(list, email).list, email) == Duplicate
  {
    var l := CommitEmail(list, email).list;
    assert l[|list|] == email;
  }

  /** The three outcomes of the synchronous checks, each characterised by the input alone. */
  lemma CheckInputCases(email: string)
    ensures CheckInput(email) == Blank <==> AllWs(email)
    ensures CheckInput(email) == Malformed <==> !AllWs(email) && !ValidateEmail(email)
    ensures CheckInput(email) == Passed <==> ValidateEmail(email)
    ensures CheckInput(email) == Passed ==> forall k :: 0 <= k < |email| ==> !IsWs(email[k])
  {
    ValidateEmailRejects(email);
    if ValidateEmail(email) {
      assert !IsWs(email[0]);
    }
  }

  /** The dialog's state together with the browser storage it writes and the callbacks it has
      scheduled but that have not yet run. */
  class WaitlistModal {
    var email: string
    var error: string
    var isLoading: bool
    var isSubmitted: bool
    /** The parent's open flag; `onClose` clears it. */
    var isOpen: bool
    /** The stored waitlist key; `None` when the key is absent. */
    var stored: Option<seq<string>>
    /** The addresses captured by the 1000 ms callbacks still to run, in the order they fire. */
    var pendingCommits: seq<string>
    /** The number of 3000 ms reset callbacks still to run. */
    var pendingResets: nat

    /** Only addresses that passed the checks are waiting to be committed. */
    ghost predicate Valid()
      reads this
    {
      forall k :: 0 <= k < |pendingCommits| ==> ValidateEmail(pendingCommits[k])
    }

    predicate StoreWellFormed()
      reads this
    {
      WellFormedWaitlist(LoadWaitlist(stored))
    }

    /** The dialog as first rendered, over whatever the browser has stored. */
    constructor (initialStore: Option<seq<string>>)
      ensures Valid()
      ensures email == "" && error == "" && !isLoading && !isSubmitted && !isOpen
      ensures stored == initialStore && pendingCommits == [] && pendingResets == 0
    {
      email := "";
      error := "";
      isLoading := false;
      isSubmitted := false;
      isOpen := false;
      stored := initialStore;
      pendingCommits := [];
      pendingResets := 0;
    }

    /** The hero's button asks the parent to show the dialog. */
    method Open()
      requires Valid()
      modifies this`isOpen
      ensures Valid() && isOpen
    {
      isOpen := true;
    }

    /** The input's change handler: takes the new text and clears the error. */
    method OnChange(value: string)
      requires Valid()
      modifies this`email, this`error
      ensures Valid()
      ensures email == value && error == ""
    {
      email := value;
      error := "";
    }

    /** `handleSubmit`: clears the error, then either reports a blank or malformed input and
        stops, or sets the loading flag and schedules the commit of the current input. The list
        and the other fields are left alone. */
    method Submit()
      requires Valid()
      modifies this`error, this`isLoading, this`pendingCommits
      ensures Valid()
      ensures CheckInput(email) != Passed ==>
        error == CheckMessage(CheckInput(email)) && isLoading == old(isLoading) &&
        pendingCommits == old(pendingCommits)
      ensures CheckInput(email) == Passed ==>
        error == "" && isLoading && pendingCommits == old(pendingCommits) + [email]
    {
      error := "";
      if IsBlank(email) {
        error := RequiredMessage;
        return;
      }
      if !ValidateEmail(email) {
        error := InvalidMessage;
        return;
      }
      isLoading := true;
      pendingCommits := pendingCommits + [email];
    }

    /** The 1000 ms callback: reads the stored list (absent key as empty), refuses an address
        already on it, and otherwise appends the address, writes the list back, marks the
        dialog submitted and schedules the reset. Either way the loading flag drops. */
    method CommitStep()
      requires Valid() && pendingCommits != []
      modifies this`error, this`isLoading, this`isSubmitted, this`stored, this`pendingCommits,
        this`pendingResets
      ensures Valid()
      ensures pendingCommits == old(pendingCommits[1..]) && !isLoading
      ensures var submitted := old(pendingCommits[0]);
        CommitEmail(LoadWaitlist(old(stored)), submitted) == Duplicate ==>
          error == DuplicateMessage && stored == old(stored) && isSubmitted == old(isSubmitted) &&
          pendingResets == old(pendingResets)
      ensures var submitted := old(pendingCommits[0]);
        CommitEmail(LoadWaitlist(old(stored)), submitted).Appended? ==>
          stored == Some(CommitEmail(LoadWaitlist(old(stored)), submitted).list) &&
          error == old(error) && isSubmitted && pendingResets == old(pendingResets) + 1
      ensures old(StoreWellFormed()) ==> StoreWellFormed()
    {
      var submitted := pendingCommits[0];
      pendingCommits := pendingCommits[1..];
      var waitlist := LoadWaitlist(stored);
      if submitted in waitlist {
        error := DuplicateMessage;
        isLoading := false;
        return;
      }
      waitlist := waitlist + [submitted];
      stored := Some(waitlist);
      isLoading := false;
      isSubmitted := true;
      pendingResets := pendingResets + 1;
    }

    /** The 3000 ms callback: clears the input and the success flag and asks the parent to
        close the dialog. */
    method ResetStep()
      requires Valid() && pendingResets > 0
      modifies this`email, this`isSubmitted, this`isOpen, this`pendingResets
      ensures Valid()
      ensures email == "" && !isSubmitted && !isOpen && pendingResets == old(pendingResets) - 1
    {
      email := "";
      isSubmitted := false;
      pendingResets := pendingResets - 1;
      isOpen := false;
    }

    /** `handleClose`: clears the input, the error and the success flag and asks the parent to
        close the dialog. It leaves the loading flag, the stored list and any scheduled
        callback as they are, so a commit already scheduled still runs. */
    method HandleClose()
      requires Valid()
      modifies this`email, this`error, this`isSubmitted, this`isOpen
      ensures Valid()
      ensures email == "" && error == "" && !isSubmitted && !isOpen
      ensures stored == old(stored) && pendingCommits == old(pendingCommits) && isLoading == old(isLoading)
    {
      email := "";
      error := "";
      isSubmitted := false;
      isOpen := false;
    }
  }

  /** One user session: open the dialog, type a valid address, submit it and let the 1000 ms
      callback run. The address is stored unless it was already on the list, in which case the
      duplicate is reported and the list is unchanged. */
  method SubmitSession(modal: WaitlistModal, address: string)
    requires modal.Valid() && modal.pendingCommits == [] && ValidateEmail(address)
    modifies modal
    ensures modal.Valid() && modal.pendingCommits == [] && modal.isOpen && !modal.isLoading
    ensures address in LoadWaitlist(old(modal.stored)) ==>
      modal.stored == old(modal.stored) && modal.error == DuplicateMessage &&
      modal.pendingResets == old(modal.pendingResets)
    ensures address !in LoadWaitlist(old(modal.stored)) ==>
      modal.stored == Some(LoadWaitlist(old(modal.stored)) + [address]) && modal.error == "" &&
      modal.isSubmitted && modal.pendingResets == old(modal.pendingResets) + 1
  {
    CheckInputCases(address);
    modal.Open();
    modal.OnChange(address);
    modal.Submit();
    assert modal.pendingCommits == [address];
    modal.CommitStep();
  }

  /** An address submitted, then submitted again after the success view has closed the dialog
      and the user has reopened it, is stored once: the second commit reports the duplicate and
      leaves the list as the first one wrote it. */
  method SubmitTwiceScenario(address: string) returns (final: Option<seq<string>>, message: string)
    requires ValidateEmail(address)
    ensures final == Some([address]) && message == DuplicateMessage
  {
    var modal := new WaitlistModal(None);
    assert LoadWaitlist(modal.stored) == [] && address !in [] && [] + [address] == [address];
    SubmitSession(modal, address);
    assert modal.stored == Some([address]) && modal.pendingResets == 1;
    modal.ResetStep();
    SubmitSession(modal, address);
    final, message := modal.stored, modal.error;
  }

  /** Closing the dialog while a commit is scheduled resets the session but does not remove
      the commit: when its callback runs, the address is stored. */
  method CloseBeforeCommitScenario(address: string) returns (final: Option<seq<string>>, open: bool)
    requires ValidateEmail(address)
    ensures final == Some([address]) && !open
  {
    CheckInputCases(address);
    var modal := new WaitlistModal(None);
    modal.Open();
    modal.OnChange(address);
    modal.Submit();
    modal.HandleClose();
    modal.CommitStep();
    final, open := modal.stored, modal.isOpen;
  }
}
