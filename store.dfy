/** The data file `complaints.json` and the three utility functions over it:
    `load_complaints`, `save_complaints` and `add_complaint`. The file is kept as an
    abstract state; its JSON text is not modelled. */
module Store {
  import opened Records

  /** What the data file holds.
      - `Unreadable`: a file whose loading fails in a way `load_complaints` catches:
        its text is not valid JSON (`json.JSONDecodeError`), or reading it raises
        `OSError`.
      - `Undecodable`: a file whose loading raises an error that is not caught, such
        as bytes that are not UTF-8 (`UnicodeDecodeError`) or JSON nested too deeply
        (`RecursionError`); `reason` is the text of that error. */
  datatype FileState =
    | Absent
    | Unreadable
    | Undecodable(reason: string)
    | Stored(records: seq<Complaint>)

  /** The environment's answer to one attempt to write the file: it is written, or
      the write raises an error with a message and leaves the file in some state. */
  datatype WriteOutcome = Written | WriteFailed(after: FileState, reason: string)

  /** The list `load_complaints` returns from a given file state, when it returns. */
  function Loaded(f: FileState): seq<Complaint> {
    if f.Stored? then f.records else []
  }

  /** Saving what was loaded restores the file exactly when it held a list: an absent
      or unreadable file is replaced by an empty list. (On an undecodable file the load
      raises, so nothing is saved.) */
  lemma ResaveRestoresIff(f: FileState)
    ensures Stored(Loaded(f)) == f <==> f.Stored?
  {
  }

  class ComplaintStore {
    var file: FileState

    constructor (initial: FileState)
      ensures file == initial
    {
      file := initial;
    }

    /** `load_complaints`: a missing or unreadable file loads as [] with no error;
        only an undecodable file makes it raise. */
    method Load() returns (complaints: seq<Complaint>, error: Option<string>)
      ensures error == if file.Undecodable? then Some(file.reason) else None
      ensures file.Absent? ==> complaints == []
      ensures file.Unreadable? ==> complaints == []
      ensures file.Stored? ==> complaints == file.records
      ensures error.None? ==> complaints == Loaded(file)
    {
      match file
      case Absent =>
        complaints, error := [], None;
      case Unreadable =>
        complaints, error := [], None;
      case Undecodable(reason) =>
        complaints, error := [], Some(reason);
      case Stored(records) =>
        complaints, error := records, None;
    }

    /** `save_complaints`: overwrites the whole file with the list; a write error is
        passed on to the caller. */
    method Save(complaints: seq<Complaint>, write: WriteOutcome) returns (error: Option<string>)
      modifies this
      ensures error == if write.Written? then None else Some(write.reason)
      ensures file == if write.Written? then Stored(complaints) else write.after
      ensures write.Written? ==> Loaded(file) == complaints
    {
      match write
      case Written =>
        file := Stored(complaints);
        error := None;
      case WriteFailed(after, reason) =>
        file := after;
        error := Some(reason);
    }

    /** `add_complaint`: load, append the entry at the end, save. When the load
        raises, its error is passed on and nothing is written. */
    method Add(entry: Complaint, write: WriteOutcome) returns (error: Option<string>)
      modifies this
      ensures old(file).Undecodable? ==> error == Some(old(file).reason) && file == old(file)
      ensures !old(file).Undecodable? ==> error == if write.Written? then None else Some(write.reason)
      ensures !old(file).Undecodable? && write.Written? ==> file == Stored(old(Loaded(file)) + [entry])
      ensures !old(file).Undecodable? && write.WriteFailed? ==> file == write.after
    {
      var complaints, loadError := Load();
      if loadError.Some? {
        return loadError;
      }
      complaints := complaints + [entry];
      error := Save(complaints, write);
    }
  }
}
