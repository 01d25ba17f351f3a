/** The schedule store: the JSON list in "schedules.json" as a sequence of elements,
    and `save_schedule_to_file`, which reads the list, appends one record and
    writes the whole list back. */
module Store {
  import opened Wrappers

  /** One element of the stored list, told apart by what the key test `k in job`
      does on it. */
  datatype Element =
    // A JSON object, with None for each of the three keys it lacks.
    | Record(frequency: Option<string>, datetime: Option<string>, filepath: Option<string>)
    // A JSON string or list: `k in job` tests for a substring or a list member, and
    // holdsKeys says whether all three key names are found; looking a key up raises.
    | Sequence(holdsKeys: bool)
    // A number, a boolean or null: `k in job` itself raises.
    | NonRecord

  /** The record `save_schedule_to_file` writes. */
  function Entry(freq: string, text: string, path: string): (e: Element)
  {
    Record(Some(freq), Some(text), Some(path))
  }

  /** The store file. */
  datatype StoreFile =
    | Missing                          // no file
    | Malformed                        // unreadable, not JSON, or a number, boolean or null
    | Present(elements: seq<Element>)  // a JSON list
    | NotAList(keysHold: seq<bool>)    // a JSON object or string: iterating it walks its
                                       // keys or characters, all strings, each flagged by
                                       // whether it holds the three key names (never so
                                       // for a single character); it has no `append`

  /** Saving can succeed: there is no file yet, or the file holds a list. */
  predicate Writable(f: StoreFile)
  {
    f.Missing? || f.Present?
  }

  /** The list a save starts from: empty when no file exists yet. */
  function Existing(f: StoreFile): (es: seq<Element>)
    requires Writable(f)
    ensures f.Missing? ==> es == []
    ensures f.Present? ==> es == f.elements
  {
    if f.Missing? then [] else f.elements
  }

  class ScheduleStore {
    var file: StoreFile

    constructor (file: StoreFile)
      ensures this.file == file
    {
      this.file := file;
    }

    /** `save_schedule_to_file(freq, text, path)`. `saved` is false where reading the
        existing file or appending to what it holds raises; the exception then leaves
        the file as it was. When it succeeds the new record is appended after every
        earlier element, also when an equal record is already there. */
    method Save(freq: string, text: string, path: string) returns (saved: bool)
      modifies this
      ensures saved <==> Writable(old(file))
      ensures saved ==> file == Present(Existing(old(file)) + [Entry(freq, text, path)])
      ensures !saved ==> file == old(file)
    {
      if !Writable(file) {
        return false;
      }
      var existing := Existing(file);
      existing := existing + [Entry(freq, text, path)];
      file := Present(existing);
      saved := true;
    }
  }
}
