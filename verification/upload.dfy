/** The upload page (src/pages/Upload.tsx).

    The page keeps three pieces of state: the selected file, whether a
    simulated upload is in progress, and whether processing has completed.
    Dropping a file, picking one, pressing "Analyze and Classify" and the
    "Upload Another File" button change them; the completion is a timer
    callback that the analyze handler schedules.  The notices the page raises
    and the callbacks waiting on the timer are kept as two further fields, so
    that what the handlers promise about them can be stated. */
module UploadPage {

  datatype Option<T> = None | Some(value: T)

  /** A file handed over by the browser; only its name matters here. */
  datatype File = File(name: string)

  /** The notices (toasts) the page raises. */
  datatype Notice = InvalidFileType | NoFileSelected | Processed

  /** What the page shows. */
  datatype Phase = Idle | FileChosen | Processing | Complete

  /** JavaScript's `s.endsWith(suffix)`. */
  predicate EndsWith(s: string, suffix: string) {
    |suffix| <= |s| && s[|s| - |suffix|..] == suffix
  }

  /** A name ends with ".csv" exactly when it is some stem followed by ".csv". */
  lemma EndsWithCsv(name: string)
    ensures EndsWith(name, ".csv") <==> exists stem :: name == stem + ".csv"
  {
    if EndsWith(name, ".csv") {
      var stem := name[..|name| - 4];
      assert name == stem + ".csv";
    }
    if exists stem :: name == stem + ".csv" {
      var stem :| name == stem + ".csv";
      assert name[|name| - 4..] == ".csv";
    }
  }

  /** Whether a drop of `files` is accepted: the first file exists and its
      name ends with ".csv" (line 23). */
  predicate AcceptsDrop(files: seq<File>) {
    |files| > 0 && EndsWith(files[0].name, ".csv")
  }

  /** The user's and the timer's actions, with their arguments. */
  datatype Event =
    | Drop(dropped: seq<File>)
    | Pick(picked: Option<seq<File>>)
    | Analyze
    | TimerFires
    | UploadAnother

  class Page {
    /** The selected file (`file`). */
    var file: Option<File>
    /** A simulated upload is in progress (`uploading`). */
    var uploading: bool
    /** Processing has completed (`uploadComplete`). */
    var uploadComplete: bool
    /** The notices raised so far, oldest first. */
    var notices: seq<Notice>
    /** Completion callbacks scheduled and not yet run. */
    var timers: nat

    /** Which view is on screen (line 80) and what its button says (line 114). */
    function Phase(): Phase
      reads this
    {
      if uploadComplete then Complete
      else if uploading then Processing
      else if file.Some? then FileChosen
      else Idle
    }

    /** `disabled={!file || uploading}` on the analyze button, negated (line 111):
        never enabled on the empty form or while processing, always enabled
        once a file is chosen. */
    function AnalyzeEnabled(): (enabled: bool)
      reads this
      ensures enabled ==> Phase() == FileChosen || Phase() == Complete
      ensures Phase() == FileChosen ==> enabled
    {
      file.Some? && !uploading
    }

    /** The states the rendered page can reach: a completion is pending
        exactly while uploading, at most one at a time; an upload always has
        a file; and the completed view never shows an upload in progress. */
    ghost predicate Valid()
      reads this
    {
      && timers <= 1
      && (uploading <==> timers == 1)
      && (uploading ==> file.Some?)
      && (uploadComplete ==> !uploading)
    }

    /** Whether the view on screen offers `e`: the drop area, the picker and
        the analyze button belong to the upload form, which is shown until
        processing completes (lines 80-117); the analyze button also needs
        to be enabled; "Upload Another File" belongs to the completed view
        (lines 145-154); the timer fires when a callback is pending. */
    predicate Offers(e: Event)
      reads this
    {
      match e
      case Drop(_) => !uploadComplete
      case Pick(_) => !uploadComplete
      case Analyze => !uploadComplete && AnalyzeEnabled()
      case TimerFires => timers > 0
      case UploadAnother => uploadComplete
    }

    /** The initial state (lines 11-13). */
    constructor ()
      ensures file == None && !uploading && !uploadComplete
      ensures notices == [] && timers == 0
      ensures Valid() && Phase() == Idle
    {
      file := None;
      uploading := false;
      uploadComplete := false;
      notices := [];
      timers := 0;
    }

    /** handleDrop (lines 20-32): a first file whose name ends with ".csv"
        becomes the selected file; anything else raises "Invalid file type"
        and changes nothing else. */
    method HandleDrop(dropped: seq<File>)
      modifies this
      ensures AcceptsDrop(dropped) ==> file == Some(dropped[0]) && notices == old(notices)
      ensures !AcceptsDrop(dropped) ==> file == old(file) && notices == old(notices) + [InvalidFileType]
      ensures uploading == old(uploading) && uploadComplete == old(uploadComplete)
      ensures timers == old(timers)
      ensures old(Valid()) ==> Valid()
    {
      if |dropped| > 0 && EndsWith(dropped[0].name, ".csv") {
        file := Some(dropped[0]);
      } else {
        notices := notices + [InvalidFileType];
      }
    }

    /** handleFileChange (lines 34-38): a non-empty file list selects its
        first file, whatever its name; a missing or empty list changes
        nothing.  No notice is raised either way. */
    method HandleFileChange(picked: Option<seq<File>>)
      modifies this
      ensures picked.Some? && |picked.value| > 0 ==> file == Some(picked.value[0])
      ensures !(picked.Some? && |picked.value| > 0) ==> file == old(file)
      ensures uploading == old(uploading) && uploadComplete == old(uploadComplete)
      ensures notices == old(notices) && timers == old(timers)
      ensures old(Valid()) ==> Valid()
    {
      if picked.Some? && |picked.value| > 0 {
        file := Some(picked.value[0]);
      }
    }

    /** handleAnalyze (lines 40-60): without a file it raises "No file
        selected" and changes nothing else; with one it marks the upload as
        in progress and schedules the completion.  The selected file is
        never touched.  On the page the handler only runs from the enabled
        button, and then the page stays valid. */
    method HandleAnalyze()
      modifies this
      ensures file == old(file) && uploadComplete == old(uploadComplete)
      ensures old(file) == None ==>
        uploading == old(uploading) && timers == old(timers) && notices == old(notices) + [NoFileSelected]
      ensures old(file).Some? ==>
        uploading && timers == old(timers) + 1 && notices == old(notices)
      ensures old(Valid()) && old(Offers(Analyze)) ==> Valid() && Phase() == Processing
    {
      if file == None {
        notices := notices + [NoFileSelected];
        return;
      }
      uploading := true;
      timers := timers + 1;
    }

    /** The completion callback scheduled by handleAnalyze (lines 52-59):
        processing is over and complete, and "Success!" is raised. */
    method Finish()
      requires timers > 0
      modifies this
      ensures !uploading && uploadComplete
      ensures timers == old(timers) - 1 && file == old(file)
      ensures notices == old(notices) + [Processed]
      ensures old(Valid()) ==> Valid() && Phase() == Complete
    {
      uploading := false;
      uploadComplete := true;
      timers := timers - 1;
      notices := notices + [Processed];
    }

    /** The "Upload Another File" closure (lines 147-150): forgets the file
        and the completion, and leaves the upload flag as it is.  From the
        completed view this is the empty upload form again. */
    method Reset()
      modifies this
      ensures file == None && !uploadComplete
      ensures uploading == old(uploading) && timers == old(timers) && notices == old(notices)
      ensures old(Valid()) && old(Offers(UploadAnother)) ==> Valid() && Phase() == Idle
    {
      file := None;
      uploadComplete := false;
    }

    /** Runs the handler for an event the page offers.  Every offered event
        keeps the page valid, so at most one simulated upload is ever in
        flight. */
    method Dispatch(e: Event)
      requires Valid() && Offers(e)
      modifies this
      ensures Valid()
    {
      match e
      case Drop(dropped) => HandleDrop(dropped);
      case Pick(picked) => HandleFileChange(picked);
      case Analyze => HandleAnalyze();
      case TimerFires => Finish();
      case UploadAnother => Reset();
    }
  }

  /** Choosing a file, analysing it and letting the timer fire ends on the
      completed view with nothing in progress; the file is kept until
      "Upload Another File". */
  method AnalyzeThenFinish(p: Page, f: File)
    requires p.Valid() && !p.uploadComplete && !p.uploading
    modifies p
    ensures p.Valid() && p.Phase() == Complete && !p.uploading
    ensures p.file == Some(f)
    ensures p.notices == old(p.notices) + [Processed]
  {
    p.HandleFileChange(Some([f]));
    p.HandleAnalyze();
    p.Finish();
  }
}
