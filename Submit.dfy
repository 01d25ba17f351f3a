/** `on_run`: the form submission. The three inputs are stripped; an empty one or a
    datetime that does not parse is rejected before anything changes; otherwise
    the job is registered and then the entry is appended to the store. */
module Submit {
  import opened Wrappers
  import opened DateText
  import opened Text
  import opened Registry
  import opened Store

  datatype SubmitResult =
    | Scheduled          // registered (when the tag is known) and saved
    | MissingInput       // "All fields are required."
    | InvalidDateTime    // "Date & Time format must be YYYY-MM-DD HH:MM"
    | SaveFailed         // registered, then reading the store raised; nothing saved

  /** The inputs are accepted: none is blank and the datetime parses. */
  predicate Accepted(freqIn: string, textIn: string, pathIn: string)
  {
    Strip(freqIn) != [] && Strip(textIn) != [] && Strip(pathIn) != [] && Parse(Strip(textIn)).Some?
  }

  method Submit(reg: JobRegistry, store: ScheduleStore, freqIn: string, textIn: string, pathIn: string)
    returns (r: SubmitResult)
    modifies reg, store
    ensures r == MissingInput <==> Strip(freqIn) == [] || Strip(textIn) == [] || Strip(pathIn) == []
    ensures r == InvalidDateTime <==> r != MissingInput && Parse(Strip(textIn)).None?
    ensures !Accepted(freqIn, textIn, pathIn) ==> reg.jobs == old(reg.jobs) && store.file == old(store.file)
    ensures Accepted(freqIn, textIn, pathIn) ==>
      && reg.jobs == Register(old(reg.jobs), Strip(freqIn), Parse(Strip(textIn)).value, Strip(pathIn))
      && (r == Scheduled <==> Writable(old(store.file)))
      && (r == SaveFailed <==> !Writable(old(store.file)))
      && (r == Scheduled ==> store.file == Present(Existing(old(store.file)) + [Entry(Strip(freqIn), Strip(textIn), Strip(pathIn))]))
      && (r == SaveFailed ==> store.file == old(store.file))
    ensures old(WellKeyed(reg.jobs)) ==> WellKeyed(reg.jobs)
  {
    var freq, text, path := Strip(freqIn), Strip(textIn), Strip(pathIn);
    if freq == [] || text == [] || path == [] {
      return MissingInput;
    }
    if Parse(text).None? {
      return InvalidDateTime;
    }
    var parsed := reg.ScheduleTask(freq, text, path);
    var saved := store.Save(freq, text, path);
    r := if saved then Scheduled else SaveFailed;
  }
}
