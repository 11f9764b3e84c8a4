/**
 * The proof-submission form of the Earn page (component `SubmitProof`).
 *
 * The form holds the chosen task, the chosen screenshot, an optional
 * note, a message line and a busy flag.  `submit` validates the form,
 * reads the session, uploads the screenshot to the `proofs` bucket under
 * the key built by `ProofPath`, and only if that upload succeeded inserts
 * a `proof_submissions` row naming that key.
 *
 * What the outside world answers (the session's user, the clock, the
 * result of the upload and of the insert) is given to `Submit` as an
 * `Outcomes` value.  Every request the component issues is appended to a
 * log, stamped with the busy flag and message line shown while it is in
 * flight.
 */
module Earn {
  import opened Wrappers
  import opened JsText
  import opened ProofPath

  /** `offerId: number | ""`; the select offers `""` and the active offers' ids. */
  datatype OfferChoice = NoTask | Task(id: int)

  /** JavaScript truthiness of `offerId`: `""` and `0` are both falsy, every other id is truthy. */
  predicate TaskChosen(o: OfferChoice): (chosen: bool)
    ensures chosen <==> o != NoTask && o != Task(0)
  {
    o.Task? && o.id != 0
  }

  datatype File = File(name: Units, contents: seq<bv8>)

  datatype User = User(id: Units)

  /** A thrown error; its `message` may be absent. */
  datatype Failure = Failure(message: Option<string>)

  /** A `proof_submissions` row as the client inserts it. */
  datatype Row = Row(userId: Units, offerId: int, screenshotPath: Units, note: Option<Units>)

  datatype Request = ReadSession | Upload(path: Units, file: File) | Insert(row: Row)

  /** A request together with what the form showed while it was in flight. */
  datatype Call = Call(request: Request, busy: bool, msg: Option<string>)

  datatype Form = Form(offerId: OfferChoice, file: Option<File>, note: Units, msg: Option<string>, busy: bool)

  /** What the session, the clock, the storage bucket and the table answer. */
  datatype Outcomes = Outcomes(session: Option<User>, now: int, upload: Option<Failure>, insert: Option<Failure>)

  datatype Step = Step(form: Form, calls: seq<Call>)

  const SelectTaskMessage: string := "Please select a task."
  const UploadMessage: string := "Please upload a screenshot."
  const NotLoggedInMessage: string := "Not logged in."
  const SubmittedMessage: string := "Submitted! Status: Pending verification (typically 24\U{2013}72h)."
  const FallbackMessage: string := "Something went wrong."

  /** `e?.message ?? "Something went wrong."`: only a missing message falls back. */
  function MessageOf(e: Failure): (m: string)
    ensures e.message.Some? ==> m == e.message.value
    ensures e.message == Some("") ==> m == ""
    ensures e.message.None? ==> m == FallbackMessage
  {
    match e.message
    case Some(m) => m
    case None => FallbackMessage
  }

  /** Both validation checks pass: a task is chosen and a file is picked. */
  predicate Validated(f: Form) {
    TaskChosen(f.offerId) && f.file.Some?
  }

  /** The first failure the try block meets, if any. */
  function FirstFailure(env: Outcomes): Option<Failure> {
    if env.session.None? then Some(Failure(Some(NotLoggedInMessage)))
    else if env.upload.Some? then env.upload
    else env.insert
  }

  /** The form after a successful submission: cleared, with the pending notice. */
  const Cleared: Form := Form(NoTask, None, [], Some(SubmittedMessage), false)

  predicate IsInsert(c: Call) {
    c.request.Insert?
  }

  predicate IsUpload(c: Call) {
    c.request.Upload?
  }

  /**
   * One `submit`: the new form and the requests issued, in order.  The
   * lemmas after it state what this sequence guarantees.
   */
  function SubmitSpec(f: Form, env: Outcomes): (s: Step)
    ensures |s.calls| <= 3
    ensures s.calls != [] ==> s.calls[0].request == ReadSession
    ensures s.form.busy ==> s.calls == []
  {
    if !TaskChosen(f.offerId) then
      Step(f.(msg := Some(SelectTaskMessage)), [])
    else if f.file.None? then
      Step(f.(msg := Some(UploadMessage)), [])
    else
      var session := Call(ReadSession, true, None);
      if env.session.None? then
        Step(f.(msg := Some(NotLoggedInMessage), busy := false), [session])
      else
        var user := env.session.value;
        var path := StoragePath(user.id, env.now, SafeName(f.file.value.name));
        var upload := Call(Upload(path, f.file.value), true, None);
        if env.upload.Some? then
          Step(f.(msg := Some(MessageOf(env.upload.value)), busy := false), [session, upload])
        else
          var row := Row(user.id, f.offerId.id, path, if f.note == [] then None else Some(f.note));
          var insert := Call(Insert(row), true, None);
          if env.insert.Some? then
            Step(f.(msg := Some(MessageOf(env.insert.value)), busy := false), [session, upload, insert])
          else
            Step(Cleared, [session, upload, insert])
  }

  /**
   * Without a task nothing else happens: the file is not looked at, `busy`
   * is not set and nothing is requested; the message asks for a task.
   * With a task but no file the message asks for a screenshot, and again
   * nothing else happens.
   */
  lemma ValidationStopsEarly(f: Form, env: Outcomes)
    ensures !TaskChosen(f.offerId) ==>
              SubmitSpec(f, env) == Step(f.(msg := Some(SelectTaskMessage)), [])
    ensures TaskChosen(f.offerId) && f.file.None? ==>
              SubmitSpec(f, env) == Step(f.(msg := Some(UploadMessage)), [])
  {
  }

  /** A request is issued exactly when both checks pass. */
  lemma RequestsOnlyWhenValidated(f: Form, env: Outcomes)
    ensures SubmitSpec(f, env).calls != [] <==> Validated(f)
  {
  }

  /**
   * Every request is in flight while the form shows `busy` and no message,
   * and once `submit` returns the form is busy only if it was busy before
   * and failed validation.
   */
  lemma BusyWhileInFlight(f: Form, env: Outcomes)
    ensures forall c :: c in SubmitSpec(f, env).calls ==> c.busy && c.msg.None?
    ensures SubmitSpec(f, env).form.busy == (f.busy && !Validated(f))
  {
  }

  /**
   * An insert comes only right after an upload, and records the key that
   * upload wrote.
   */
  lemma InsertFollowsUpload(f: Form, env: Outcomes)
    ensures var calls := SubmitSpec(f, env).calls;
            forall i :: 0 <= i < |calls| && IsInsert(calls[i]) ==>
              && 0 < i
              && IsUpload(calls[i - 1])
              && calls[i].request.row.screenshotPath == calls[i - 1].request.path
  {
  }

  /** The insert is requested exactly when validation passed, there is a session user and the upload reported no error. */
  lemma InsertIffUploadSucceeded(f: Form, env: Outcomes)
    ensures (exists c :: c in SubmitSpec(f, env).calls && IsInsert(c)) <==>
              Validated(f) && env.session.Some? && env.upload.None?
  {
    var calls := SubmitSpec(f, env).calls;
    if Validated(f) && env.session.Some? && env.upload.None? {
      assert IsInsert(calls[2]);
    }
  }

  /**
   * The upload sends the chosen file under a key that splits back into the
   * session user's folder, the clock reading and the sanitised file name.
   */
  lemma UploadKeyInUserFolder(f: Form, env: Outcomes)
    ensures forall c :: c in SubmitSpec(f, env).calls && IsUpload(c) ==>
              && env.session.Some? && f.file.Some?
              && c.request.file == f.file.value
              && SplitPath(c.request.path)
                 == Some(PathParts(env.session.value.id, env.now, SafeName(f.file.value.name)))
  {
    var calls := SubmitSpec(f, env).calls;
    forall c | c in calls && IsUpload(c)
      ensures && env.session.Some? && f.file.Some?
              && c.request.file == f.file.value
              && SplitPath(c.request.path)
                 == Some(PathParts(env.session.value.id, env.now, SafeName(f.file.value.name)))
    {
      assert Validated(f) && env.session.Some?;
      var name := f.file.value.name;
      assert c.request.path == StoragePath(env.session.value.id, env.now, SafeName(name));
      ProofPathInUserFolder(env.session.value.id, env.now, name);
    }
  }

  /**
   * The inserted row names the session user and the chosen task, and
   * stores an empty note as `null` and any other note as it is.
   */
  lemma InsertedRow(f: Form, env: Outcomes)
    ensures forall c :: c in SubmitSpec(f, env).calls && IsInsert(c) ==>
              && env.session.Some? && f.offerId.Task?
              && c.request.row.userId == env.session.value.id
              && c.request.row.offerId == f.offerId.id
              && (c.request.row.note.None? <==> f.note == [])
              && (c.request.row.note.Some? ==> c.request.row.note.value == f.note)
  {
  }

  /**
   * After validation the form is cleared with the pending notice when every
   * step succeeded; otherwise it keeps the task, file and note and shows
   * the first failure's message (or the fallback when it has none).
   */
  lemma SubmitOutcome(f: Form, env: Outcomes)
    requires Validated(f)
    ensures FirstFailure(env).None? ==> SubmitSpec(f, env).form == Cleared
    ensures FirstFailure(env).Some? ==>
              SubmitSpec(f, env).form == f.(msg := Some(MessageOf(FirstFailure(env).value)), busy := false)
  {
  }

  /**
   * After a successful submission the task has to be chosen again: pressing
   * the button once more issues no request, so one completed form never
   * yields two submissions.
   */
  lemma NoResubmitAfterSuccess(f: Form, env: Outcomes, again: Outcomes)
    requires Validated(f) && FirstFailure(env).None?
    ensures SubmitSpec(SubmitSpec(f, env).form, again).calls == []
    ensures SubmitSpec(SubmitSpec(f, env).form, again).form.msg == Some(SelectTaskMessage)
  {
  }

  /**
   * After a failed submission the inputs are kept, so a retry issues the
   * same requests as a first attempt with the retry's outcomes would.
   */
  lemma RetryAfterFailure(f: Form, env: Outcomes, again: Outcomes)
    requires Validated(f) && FirstFailure(env).Some?
    ensures SubmitSpec(SubmitSpec(f, env).form, again).calls == SubmitSpec(f, again).calls
  {
  }

  /** The component's state, with the log of requests it has issued. */
  class SubmitProof {
    var offerId: OfferChoice
    var file: Option<File>
    var note: Units
    var msg: Option<string>
    var busy: bool
    /** Every request this component has issued, oldest first. */
    var requests: seq<Call>

    function Snapshot(): Form
      reads this
    {
      Form(offerId, file, note, msg, busy)
    }

    /** The initial `useState` values. */
    constructor ()
      ensures Snapshot() == Form(NoTask, None, [], None, false)
      ensures requests == []
    {
      offerId, file, note, msg, busy := NoTask, None, [], None, false;
      requests := [];
    }

    /**
     * `submit()`: the early returns of the two checks, then the try block,
     * whose failures land in one catch, and a finally that clears `busy`.
     */
    method Submit(env: Outcomes)
      modifies this
      ensures Snapshot() == SubmitSpec(old(Snapshot()), env).form
      ensures requests == old(requests) + SubmitSpec(old(Snapshot()), env).calls
    {
      msg := None;
      if !TaskChosen(offerId) {
        msg := Some(SelectTaskMessage);
        return;
      }
      if file.None? {
        msg := Some(UploadMessage);
        return;
      }
      busy := true;

      var failure: Option<Failure> := None;
      requests := requests + [Call(ReadSession, busy, msg)];
      if env.session.None? {
        failure := Some(Failure(Some(NotLoggedInMessage)));
      } else {
        var user := env.session.value;
        var safeName := SafeName(file.value.name);
        var path := StoragePath(user.id, env.now, safeName);
        requests := requests + [Call(Upload(path, file.value), busy, msg)];
        if env.upload.Some? {
          failure := env.upload;
        } else {
          var row := Row(user.id, offerId.id, path, if note == [] then None else Some(note));
          requests := requests + [Call(Insert(row), busy, msg)];
          if env.insert.Some? {
            failure := env.insert;
          } else {
            msg := Some(SubmittedMessage);
            offerId := NoTask;
            file := None;
            note := [];
          }
        }
      }
      if failure.Some? {
        msg := Some(MessageOf(failure.value));
      }
      busy := false;
    }
  }
}
