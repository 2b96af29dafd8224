/**
  Instantiating a bundle and duplicating a workload. A copy keeps drawing its control files from
  the bundle its first ancestor was made from, as long as every name and bundle on the way gets
  through the line it is written on.
 */
module Lineage {
  import opened Common
  import opened FieldEditor
  import opened FieldSetter
  import opened TomlText
  import Literals

  // --- Names ---

  const MAX_NAME_LENGTH := 27

  predicate NameStart(c: char) {
    'a' <= c <= 'z'
  }

  predicate NameChar(c: char) {
    NameStart(c) || '0' <= c <= '9' || c == '-'
  }

  predicate EndsInBreak(name: string) {
    name != "" && name[|name| - 1] == Literals.LF
  }

  /** The name without the one line break that the end of the pattern lets pass. */
  function Core(name: string): string {
    if EndsInBreak(name) then name[..|name| - 1] else name
  }

  predicate ValidName(name: string) {
    && |name| <= MAX_NAME_LENGTH
    && Core(name) != "" && NameStart(Core(name)[0])
    && forall i :: 0 <= i < |Core(name)| ==> NameChar(Core(name)[i])
  }

  lemma NameCharIsKept(c: char)
    requires NameChar(c)
    ensures Literals.Kept(c) && c != Literals.QUOTE
  {
  }

  /**
    A valid name gets through a raw or replaced line exactly when it does not end in a line break,
    and through an inserted one always.
   */
  lemma NamesGetThrough(name: string)
    requires ValidName(name)
    ensures Literals.InsertSafe(name) && !Literals.HasRefused(name)
    ensures Literals.BACKSLASH !in name && Literals.QUOTE !in name
    ensures Literals.ReplaceSafe(name) <==> !EndsInBreak(name)
    ensures Literals.RawSafe(name) <==> !EndsInBreak(name)
  {
    var core := Core(name);
    forall i | 0 <= i < |core| ensures Literals.Kept(name[i]) && name[i] != Literals.QUOTE {
      assert name[i] == core[i];
      NameCharIsKept(core[i]);
    }
    if EndsInBreak(name) {
      assert !Literals.Kept(name[|name| - 1]);
    }
  }

  // --- Reading ---

  const NAME := "name"
  const BUNDLE := "bundle"

  /** The value a reader gives a key. */
  function Lookup(lines: seq<Line>, n: nat, p: Path): Option<string>
    requires n <= |lines|
  {
    if n == 0 then None
    else if BindsAt(lines, n - 1, p) then Some(lines[n - 1].value)
    else Lookup(lines, n - 1, p)
  }

  lemma {:induction false} LookupExactly(lines: seq<Line>, n: nat, p: Path)
    requires Apart(lines) && n <= |lines|
    ensures forall i :: 0 <= i < n && BindsAt(lines, i, p) ==> Lookup(lines, n, p) == Some(lines[i].value)
    ensures Lookup(lines, n, p).Some? ==>
              exists i :: 0 <= i < n && BindsAt(lines, i, p) && Lookup(lines, n, p).value == lines[i].value
  {
    if n > 0 {
      LookupExactly(lines, n - 1, p);
      forall i | 0 <= i < n && BindsAt(lines, i, p) ensures Lookup(lines, n, p) == Some(lines[i].value) {
        if BindsAt(lines, n - 1, p) { OneBinding(lines, i, n - 1, p); }
      }
    }
  }

  function Value(t: Text, k: string): Option<string> { Lookup(t.lines, |t.lines|, FieldPath(k)) }

  lemma ValueExactly(t: Text, k: string, v: string)
    requires Valid(t.lines)
    ensures Value(t, k) == Some(v) <==> Reads(t.lines, FieldPath(k), v)
  {
    LookupExactly(t.lines, |t.lines|, FieldPath(k));
  }

  /** The bundle a workload draws on: its own field when that says something, else its name. */
  function Resolve(t: Text, name: string): string {
    var b := Value(t, BUNDLE);
    if b.Some? && b.value != "" then b.value else name
  }

  // --- Writing ---

  /**
    Sets the name and then, if given, the bundle. What the patterns see of the name's line does not
    depend on its value.
   */
  function SetBoth(src: Text, name: string, bundle: Option<string>): Edit {
    var named := SetField(src, NAME, name);
    if named.Raised? || bundle == None then named
    else
      var both := SetField(Put(src, NAME, name), BUNDLE, bundle.value);
      if both.Wrote? && named.Unparsable? then Unparsable else both
  }

  function InitEdit(template: Text, bundle: string, name: string): Edit {
    SetBoth(template, name, if name != bundle then Some(bundle) else None)
  }

  function DuplicateEdit(src: Text, srcName: string, name: string): Edit {
    SetBoth(src, name, Some(Resolve(src, srcName)))
  }

  function ScratchText(name: string): Text {
    Text([Header(WORKLOAD, Exact), Field(NAME, name), Other(""),
          Header(["container"], Exact), Field("image", "CHANGE_ME"), Field("pull", "missing")], true)
  }

  /** The scratch declaration puts the name between quotes as it is. */
  function ScratchFile(name: string): Option<Text> {
    var read := Literals.RawRead(name);
    if read == None then None else Some(ScratchText(read.value))
  }

  function FileOf(e: Edit): Option<Text> {
    if e.Wrote? then Some(e.text) else None
  }

  /** The workload declarations, None where the file does not parse; a workload exists as soon as its directory does. */
  class Catalog {
    var configs: map<string, Option<Text>>

    constructor ()
      ensures configs == map[]
    {
      configs := map[];
    }

    /** Creates a workload from a bundle's template, unless there is one of that name. */
    method Init(template: Option<Text>, bundle: string, name: string) returns (done: bool)
      modifies this
      ensures done <==> ValidName(bundle) && ValidName(name) && template.Some? && name !in old(configs)
      ensures configs ==
              if done then old(configs)[name := FileOf(InitEdit(template.value, bundle, name))] else old(configs)
      ensures done ==> !InitEdit(template.value, bundle, name).Raised?
    {
      if !ValidName(bundle) || !ValidName(name) || template == None || name in configs {
        return false;
      }
      InitNeverRaises(template.value, bundle, name);
      var edit := SetField(template.value, NAME, name);
      if name != bundle {
        var both := SetField(Put(template.value, NAME, name), BUNDLE, bundle);
        edit := if both.Wrote? && edit.Unparsable? then Unparsable else both;
      }
      configs := configs[name := FileOf(edit)];
      return true;
    }

    /** Copies a declaration. A source that does not parse, and a bundle the template refuses, end it with an error. */
    method Duplicate(src: string, name: string) returns (done: bool)
      modifies this
      ensures done <==>
                && ValidName(src) && ValidName(name) && src in old(configs) && name !in old(configs)
                && old(configs)[src].Some? && !DuplicateEdit(old(configs)[src].value, src, name).Raised?
      ensures configs ==
              if done then old(configs)[name := FileOf(DuplicateEdit(old(configs)[src].value, src, name))]
                  else old(configs)
    {
      if !ValidName(src) || !ValidName(name) || src !in configs || name in configs || configs[src] == None {
        return false;
      }
      var text := configs[src].value;
      var bundle := Resolve(text, src);
      var edit := SetField(text, NAME, name);
      if edit.Raised? {
        return false;
      }
      var both := SetField(Put(text, NAME, name), BUNDLE, bundle);
      if both.Raised? {
        return false;
      }
      edit := if both.Wrote? && edit.Unparsable? then Unparsable else both;
      configs := configs[name := FileOf(edit)];
      return true;
    }
  }

  // --- What one step does ---

  /** A file both edits treat as a reader would. */
  ghost predicate Sound(t: Text) {
    Valid(t.lines) && Settled(t) && Regular(t, NAME) && Regular(t, BUNDLE)
  }

  lemma PutKeepsSound(t: Text, field: string, value: string)
    requires Sound(t) && field in {NAME, BUNDLE}
    ensures Sound(Put(t, field, value))
  {
    RegularIsLens(t, field, value);
    RegularKept(t, field, value, NAME);
    RegularKept(t, field, value, BUNDLE);
  }

  lemma PutValue(t: Text, field: string, value: string, k: string)
    requires Sound(t) && field in {NAME, BUNDLE}
    ensures Value(Put(t, field, value), k) == if k == field then Some(value) else Value(t, k)
  {
    var now := Put(t, field, value);
    RegularIsLens(t, field, value);
    assert FieldPath(k)[1] == k && FieldPath(field)[1] == field;
    ValueExactly(now, k, value);
    if Value(now, k).Some? { ValueExactly(now, k, Value(now, k).value); ValueExactly(t, k, Value(now, k).value); }
    if Value(t, k).Some? { ValueExactly(t, k, Value(t, k).value); ValueExactly(now, k, Value(t, k).value); }
  }

  // --- The name ---

  /** A valid name is written, or leaves a file that does not parse; it is never refused. */
  lemma NameSet(t: Text, name: string)
    requires ValidName(name)
    ensures SetField(t, NAME, name) ==
            if Replaces(t, NAME) && EndsInBreak(name) then Unparsable else Wrote(Put(t, NAME, name))
  {
    NamesGetThrough(name);
    SetFieldExactly(t, NAME, name);
  }

  // --- Instantiating ---

  /** A name or bundle of the instance does not get through its line. */
  predicate InitSpoils(template: Text, bundle: string, name: string) {
    || (Replaces(template, NAME) && EndsInBreak(name))
    || (name != bundle && Replaces(Put(template, NAME, name), BUNDLE) && EndsInBreak(bundle))
  }

  lemma InitNeverRaises(template: Text, bundle: string, name: string)
    requires ValidName(bundle) && ValidName(name)
    ensures !InitEdit(template, bundle, name).Raised?
  {
    NameSet(template, name);
    NamesGetThrough(bundle);
    SetFieldExactly(Put(template, NAME, name), BUNDLE, bundle);
  }

  /** The bundle an instance comes to draw on. */
  function RootBundle(template: Text, bundle: string, name: string): string {
    if name != bundle then bundle else Resolve(template, bundle)
  }

  /** The text of an instance whose name and bundle get through. */
  function InitText(template: Text, bundle: string, name: string): Text {
    var named := Put(template, NAME, name);
    if name != bundle then Put(named, BUNDLE, bundle) else named
  }

  lemma InitEditExactly(template: Text, bundle: string, name: string)
    requires ValidName(bundle) && ValidName(name)
    ensures InitEdit(template, bundle, name) ==
            if InitSpoils(template, bundle, name) then Unparsable else Wrote(InitText(template, bundle, name))
  {
    NameSet(template, name);
    NamesGetThrough(bundle);
    SetFieldExactly(Put(template, NAME, name), BUNDLE, bundle);
  }

  /** Unless it is spoiled, an instance reads its own name and resolves to its root bundle. */
  lemma InitResolves(template: Text, bundle: string, name: string)
    requires Sound(template) && ValidName(bundle) && ValidName(name)
    ensures InitEdit(template, bundle, name) ==
            if InitSpoils(template, bundle, name) then Unparsable else Wrote(InitText(template, bundle, name))
    ensures var t := InitText(template, bundle, name);
            Sound(t) && Value(t, NAME) == Some(name) && Resolve(t, name) == RootBundle(template, bundle, name)
  {
    var named := Put(template, NAME, name);
    InitEditExactly(template, bundle, name);
    PutKeepsSound(template, NAME, name);
    PutValue(template, NAME, name, NAME);
    PutValue(template, NAME, name, BUNDLE);
    if name != bundle {
      PutKeepsSound(named, BUNDLE, bundle);
      PutValue(named, BUNDLE, bundle, NAME);
      PutValue(named, BUNDLE, bundle, BUNDLE);
    }
  }

  // --- Duplicating ---

  /** The new name or the bundle does not get through its line. */
  predicate DuplicateSpoils(src: Text, srcName: string, name: string) {
    || (Replaces(src, NAME) && EndsInBreak(name))
    || !Survives(Put(src, NAME, name), BUNDLE, Resolve(src, srcName))
  }

  /** A bundle that lost its way: not the one meant, and no further copy of it will be. */
  predicate Strayed(x: string, meant: string) {
    Literals.BACKSLASH in meant && (|x| < |meant| || Literals.BACKSLASH !in x)
  }

  lemma ResolvesToSomething(t: Text, name: string)
    requires ValidName(name)
    ensures Resolve(t, name) != ""
  {
  }

  /** What is written for a bundle: itself, or something shorter. */
  lemma BundleSet(t: Text, bundle: string) returns (w: string)
    requires SetField(t, BUNDLE, bundle).Wrote?
    ensures SetField(t, BUNDLE, bundle).text == Put(t, BUNDLE, w)
    ensures if Survives(t, BUNDLE, bundle) then w == bundle else Literals.BACKSLASH in bundle && |w| < |bundle|
  {
    SetFieldExactly(t, BUNDLE, bundle);
    if Survives(t, BUNDLE, bundle) {
      w := bundle;
    } else {
      w :| SetField(t, BUNDLE, bundle).text == Put(t, BUNDLE, w) && |w| < |bundle|;
    }
  }

  lemma BothPut(src: Text, name: string, bundle: string)
    requires Sound(src)
    ensures var t := Put(Put(src, NAME, name), BUNDLE, bundle);
            Sound(t) && Value(t, NAME) == Some(name) && Value(t, BUNDLE) == Some(bundle)
  {
    var named := Put(src, NAME, name);
    PutKeepsSound(src, NAME, name);
    PutValue(src, NAME, name, NAME);
    PutKeepsSound(named, BUNDLE, bundle);
    PutValue(named, BUNDLE, bundle, NAME);
    PutValue(named, BUNDLE, bundle, BUNDLE);
  }

  /** A parsable copy reads its name, and resolves to its source's bundle or to one that strayed from it. */
  lemma DuplicateWrites(src: Text, srcName: string, name: string)
    requires Sound(src) && ValidName(srcName) && ValidName(name) && DuplicateEdit(src, srcName, name).Wrote?
    ensures var t := DuplicateEdit(src, srcName, name).text;
            && Sound(t) && Value(t, NAME) == Some(name)
            && if DuplicateSpoils(src, srcName, name) then Strayed(Resolve(t, name), Resolve(src, srcName))
               else Resolve(t, name) == Resolve(src, srcName)
  {
    var named, b := Put(src, NAME, name), Resolve(src, srcName);
    NameSet(src, name);
    NamesGetThrough(name);
    ResolvesToSomething(src, srcName);
    var w := BundleSet(named, b);
    BothPut(src, name, w);
  }

  /** A copy reads its name and resolves to whatever its source resolves to exactly when both get through. */
  lemma DuplicateResolves(src: Text, srcName: string, name: string)
    requires Sound(src) && ValidName(srcName) && ValidName(name)
    ensures var e := DuplicateEdit(src, srcName, name);
            (e.Wrote? && Value(e.text, NAME) == Some(name) && Resolve(e.text, name) == Resolve(src, srcName)) <==>
            !DuplicateSpoils(src, srcName, name)
  {
    NameSet(src, name);
    SetFieldExactly(Put(src, NAME, name), BUNDLE, Resolve(src, srcName));
    if DuplicateEdit(src, srcName, name).Wrote? {
      DuplicateWrites(src, srcName, name);
    }
  }

  /** Where the source's bundle is itself a valid name, only a line break at an end can spoil a copy. */
  lemma NamedBundleSpoils(src: Text, srcName: string, name: string)
    requires ValidName(Resolve(src, srcName)) && ValidName(name)
    ensures DuplicateSpoils(src, srcName, name) <==>
            || (Replaces(src, NAME) && EndsInBreak(name))
            || (Replaces(Put(src, NAME, name), BUNDLE) && EndsInBreak(Resolve(src, srcName)))
    ensures !DuplicateEdit(src, srcName, name).Raised?
  {
    NamesGetThrough(Resolve(src, srcName));
    NameSet(src, name);
    SetFieldExactly(Put(src, NAME, name), BUNDLE, Resolve(src, srcName));
  }

  // --- Scratch ---

  /** The scratch file line by line. */
  lemma ScratchFacts(name: string)
    ensures var ls := ScratchText(name).lines;
            && FactAt(ls, 0) == Opens(WORKLOAD) && FactAt(ls, 1) == Sets(FieldPath(NAME), 1) && FactAt(ls, 2) == Silent
            && FactAt(ls, 3) == Opens(["container"])
            && FactAt(ls, 4) == Sets(["container", "image"], 1) && FactAt(ls, 5) == Sets(["container", "pull"], 1)
  {
    var ls := ScratchText(name).lines;
    assert SectionAt(ls, 0) == SectionAt(ls, 1) == WORKLOAD;
    assert SectionAt(ls, 3) == SectionAt(ls, 4) == SectionAt(ls, 5) == ["container"];
  }

  lemma ScratchRoom(name: string)
    ensures Room(ScratchText(name).lines, Sets(FieldPath(BUNDLE), 1))
  {
    ScratchFacts(name);
    FieldsDoNotClash(BUNDLE, NAME);
  }

  lemma ScratchValid(name: string)
    ensures Valid(ScratchText(name).lines)
  {
    ScratchFacts(name);
    assert "image" != "pull" by { assert |"image"| != |"pull"|; }
    assert "container" != "workload" by { assert |"container"| != |"workload"|; }
    assert ["container", "image"][1] == "image" && ["container", "pull"][1] == "pull";
  }

  lemma ScratchOpening(name: string)
    ensures Opening(ScratchText(name), 0) == Some(0)
  {
    assert OpensBody(ScratchText(name), 0);
  }

  lemma ScratchRegular(name: string)
    ensures var t := ScratchText(name); Settled(t) && Regular(t, NAME) && Regular(t, BUNDLE) && Replaces(t, NAME)
  {
    var ls := ScratchText(name).lines;
    ScratchOpening(name);
    ScratchRoom(name);
    assert SectionAt(ls, 0) == SectionAt(ls, 1) == WORKLOAD;
    assert Match(ls, 1, NAME) == Some(1);
    assert Match(ls, 1, BUNDLE) == Match(ls, 2, BUNDLE) == Match(ls, 3, BUNDLE) == None;
  }

  lemma ScratchValues(name: string)
    ensures Value(ScratchText(name), NAME) == Some(name) && Value(ScratchText(name), BUNDLE) == None
  {
    var ls := ScratchText(name).lines;
    ScratchValid(name);
    ScratchFacts(name);
    ScratchRoom(name);
    LookupExactly(ls, 6, FieldPath(NAME));
    LookupExactly(ls, 6, FieldPath(BUNDLE));
    assert BindsAt(ls, 1, FieldPath(NAME));
  }

  /**
    A scratch declaration reads its own name, which is then its bundle, exactly when that does not
    end in a line break.
   */
  lemma ScratchResolves(name: string)
    requires ValidName(name)
    ensures ScratchFile(name) == if EndsInBreak(name) then None else Some(ScratchText(name))
    ensures var t := ScratchText(name); Sound(t) && Value(t, NAME) == Some(name) && Resolve(t, name) == name
  {
    NamesGetThrough(name);
    Literals.RawReadsExactly(name);
    ScratchValid(name);
    ScratchRegular(name);
    ScratchValues(name);
  }

  // --- Every run ---

  datatype Step =
    | Init(template: Text, bundle: string, name: string)
    | Scratch(name: string)
    | Duplicate(src: string, name: string)
    | Remove(name: string)

  /**
    The declarations, for each the bundle its first ancestor was made from, and the ones that some
    command on the way spoiled.
   */
  datatype History = History(configs: map<string, Option<Text>>, origin: map<string, string>, spoiled: set<string>)

  function With(h: History, name: string, file: Option<Text>, origin: string, spoiled: bool): History {
    History(h.configs[name := file], h.origin[name := origin], if spoiled then h.spoiled + {name} else h.spoiled)
  }

  /** A step that changes nothing: its command ends with an error. */
  predicate Fails(h: History, step: Step) {
    match step
    case Init(_, bundle, name) => !ValidName(bundle) || !ValidName(name) || name in h.configs
    case Scratch(name) => !ValidName(name) || name in h.configs
    case Duplicate(src, name) =>
      || !ValidName(src) || !ValidName(name) || src !in h.configs || src !in h.origin || name in h.configs
      || h.configs[src] == None || DuplicateEdit(h.configs[src].value, src, name).Raised?
    case Remove(name) => name !in h.configs
  }

  /** Known before the command runs: a name or bundle it writes does not get through its line. */
  predicate Spoils(h: History, step: Step)
    requires !Fails(h, step) && !step.Remove?
  {
    match step
    case Init(template, bundle, name) => InitSpoils(template, bundle, name)
    case Scratch(name) => EndsInBreak(name)
    case Duplicate(src, name) => src in h.spoiled || DuplicateSpoils(h.configs[src].value, src, name)
  }

  function Next(h: History, step: Step): History {
    if Fails(h, step) then h
    else match step
      case Init(template, bundle, name) =>
        With(h, name, FileOf(InitEdit(template, bundle, name)), RootBundle(template, bundle, name), Spoils(h, step))
      case Scratch(name) => With(h, name, ScratchFile(name), name, Spoils(h, step))
      case Duplicate(src, name) =>
        With(h, name, FileOf(DuplicateEdit(h.configs[src].value, src, name)), h.origin[src], Spoils(h, step))
      case Remove(name) => History(h.configs - {name}, h.origin - {name}, h.spoiled - {name})
  }

  function Run(steps: seq<Step>): History {
    if steps == [] then History(map[], map[], {}) else Next(Run(steps[..|steps| - 1]), steps[|steps| - 1])
  }

  ghost predicate SoundTemplates(steps: seq<Step>) {
    forall i :: 0 <= i < |steps| && steps[i].Init? ==> Sound(steps[i].template)
  }

  /** The file parses, reads its own name and resolves to the bundle its first ancestor was made from. */
  ghost predicate Declared(file: Option<Text>, name: string, origin: string) {
    && file.Some? && Sound(file.value)
    && Value(file.value, NAME) == Some(name) && Resolve(file.value, name) == origin
  }

  /** A spoiled file does not parse, or reads its name but strayed from its bundle for good. */
  ghost predicate Lost(file: Option<Text>, name: string, origin: string) {
    file.Some? ==> && Sound(file.value) && Value(file.value, NAME) == Some(name)
                   && Strayed(Resolve(file.value, name), origin)
  }

  ghost predicate Stands(file: Option<Text>, name: string, origin: string, spoiled: bool) {
    if spoiled then Lost(file, name, origin) else Declared(file, name, origin)
  }

  ghost predicate Inv(h: History) {
    && h.configs.Keys == h.origin.Keys && h.spoiled <= h.configs.Keys
    && forall n :: n in h.configs ==> Stands(h.configs[n], n, h.origin[n], n in h.spoiled)
  }

  lemma WithKeepsInv(h: History, name: string, file: Option<Text>, origin: string, spoiled: bool)
    requires Inv(h) && name !in h.configs && Stands(file, name, origin, spoiled)
    ensures Inv(With(h, name, file, origin, spoiled))
  {
  }

  /** A copy of a file that stands, stands. */
  lemma CopyStands(src: Text, srcName: string, origin: string, lost: bool, name: string)
    requires Stands(Some(src), srcName, origin, lost) && ValidName(srcName) && ValidName(name)
    ensures var e := DuplicateEdit(src, srcName, name);
            Stands(FileOf(e), name, origin, lost || DuplicateSpoils(src, srcName, name))
  {
    DuplicateResolves(src, srcName, name);
    if DuplicateEdit(src, srcName, name).Wrote? {
      DuplicateWrites(src, srcName, name);
    }
  }

  lemma StepKeepsInv(h: History, step: Step)
    requires Inv(h) && (step.Init? ==> Sound(step.template))
    ensures Inv(Next(h, step))
  {
    if !Fails(h, step) {
      match step
      case Init(template, bundle, name) =>
        InitResolves(template, bundle, name);
        WithKeepsInv(h, name, FileOf(InitEdit(template, bundle, name)), RootBundle(template, bundle, name),
            Spoils(h, step));
      case Scratch(name) =>
        ScratchResolves(name);
        WithKeepsInv(h, name, ScratchFile(name), name, Spoils(h, step));
      case Duplicate(src, name) =>
        var text := h.configs[src].value;
        CopyStands(text, src, h.origin[src], src in h.spoiled, name);
        WithKeepsInv(h, name, FileOf(DuplicateEdit(text, src, name)), h.origin[src], Spoils(h, step));
      case Remove(_) =>
    }
  }

  lemma {:induction false} RunKeepsInv(steps: seq<Step>)
    requires SoundTemplates(steps)
    ensures Inv(Run(steps))
  {
    if steps != [] {
      var front, last := steps[..|steps| - 1], steps[|steps| - 1];
      assert forall i :: 0 <= i < |front| ==> front[i] == steps[i];
      RunKeepsInv(front);
      StepKeepsInv(Run(front), last);
    }
  }

  lemma LostIsNotDeclared(file: Option<Text>, name: string, origin: string)
    ensures !(Lost(file, name, origin) && Declared(file, name, origin))
  {
  }

  /**
    After any run, a workload reads its own name and resolves to its first ancestor's bundle exactly
    when no command on its line of descent spoiled it.
   */
  lemma EveryDescendantResolves(steps: seq<Step>)
    requires SoundTemplates(steps)
    ensures var h := Run(steps);
            && h.configs.Keys == h.origin.Keys
            && forall n :: n in h.configs ==> (Declared(h.configs[n], n, h.origin[n]) <==> n !in h.spoiled)
  {
    RunKeepsInv(steps);
    var h := Run(steps);
    forall n | n in h.configs ensures Declared(h.configs[n], n, h.origin[n]) <==> n !in h.spoiled {
      LostIsNotDeclared(h.configs[n], n, h.origin[n]);
    }
  }

  // --- Runs without line breaks ---

  /** No name or bundle given ends in a line break, and no namesake's template redirects it to an unsafe value. */
  predicate Plain(step: Step) {
    match step
    case Init(template, bundle, name) =>
      !EndsInBreak(bundle) && !EndsInBreak(name) && Literals.ReplaceSafe(RootBundle(template, bundle, name))
    case Scratch(name) => !EndsInBreak(name)
    case Duplicate(_, name) => !EndsInBreak(name)
    case Remove(_) => true
  }

  ghost predicate PlainInv(h: History) {
    Inv(h) && h.spoiled == {} && forall n :: n in h.origin ==> Literals.ReplaceSafe(h.origin[n])
  }

  lemma SafeSurvives(t: Text, field: string, value: string)
    requires Literals.ReplaceSafe(value)
    ensures Survives(t, field, value)
  {
  }

  lemma PlainStep(h: History, step: Step)
    requires PlainInv(h) && Plain(step) && (step.Init? ==> Sound(step.template))
    ensures PlainInv(Next(h, step))
  {
    StepKeepsInv(h, step);
    if !Fails(h, step) {
      match step
      case Init(_, _, _) =>
      case Scratch(name) =>
        NamesGetThrough(name);
      case Duplicate(src, name) =>
        var text := h.configs[src].value;
        assert Stands(h.configs[src], src, h.origin[src], false);
        SafeSurvives(Put(text, NAME, name), BUNDLE, h.origin[src]);
      case Remove(_) =>
    }
  }

  /** In a run without line breaks at the end of names, every workload stays with its first ancestor's bundle. */
  lemma {:induction false} PlainRunsResolve(steps: seq<Step>)
    requires SoundTemplates(steps) && forall i :: 0 <= i < |steps| ==> Plain(steps[i])
    ensures PlainInv(Run(steps))
  {
    if steps != [] {
      var front, last := steps[..|steps| - 1], steps[|steps| - 1];
      assert forall i :: 0 <= i < |front| ==> front[i] == steps[i];
      PlainRunsResolve(front);
      PlainStep(Run(front), last);
    }
  }

  /**
    The first ancestor draws on the bundle it was made from, unless it is spoiled or the template
    redirects its namesake.
   */
  lemma RootIsItsBundle(template: Text, bundle: string, name: string)
    requires Sound(template) && ValidName(bundle) && ValidName(name)
    ensures var e := InitEdit(template, bundle, name);
            (e.Wrote? && Resolve(e.text, name) == bundle) <==>
            && !InitSpoils(template, bundle, name)
            && (name != bundle || Value(template, BUNDLE) in {None, Some(""), Some(bundle)})
  {
    InitResolves(template, bundle, name);
  }

  // --- A name that ends in a line break ---

  lemma ScratchRun(name: string)
    requires ValidName(name)
    ensures Run([Scratch(name)]) == With(Run([]), name, ScratchFile(name), name, EndsInBreak(name))
  {
    assert [Scratch(name)][..0] == [];
  }

  /** A copy of a scratch workload under a name that ends in a line break does not parse. */
  lemma BrokenCopy(src: string, name: string)
    requires ValidName(src) && !EndsInBreak(src) && ValidName(name) && EndsInBreak(name)
    ensures DuplicateEdit(ScratchText(src), src, name) == Unparsable
  {
    var t := ScratchText(src);
    ScratchRegular(src);
    ScratchResolves(src);
    NameSet(t, name);
    NamesGetThrough(src);
    SafeSurvives(Put(t, NAME, name), BUNDLE, src);
    SetFieldExactly(Put(t, NAME, name), BUNDLE, src);
  }

  lemma BrokenRun(src: string, name: string)
    requires ValidName(src) && !EndsInBreak(src) && ValidName(name) && EndsInBreak(name)
    ensures Run([Scratch(name)]).configs == map[name := None]
    ensures Run([Scratch(src), Duplicate(src, name)]).configs == map[src := Some(ScratchText(src)), name := None]
  {
    var steps := [Scratch(src), Duplicate(src, name)];
    assert steps[..1] == [Scratch(src)];
    ScratchRun(src);
    ScratchRun(name);
    ScratchResolves(src);
    ScratchResolves(name);
    BrokenCopy(src, name);
  }

  const BROKEN := "a\n"

  /** Such a name is valid, yet as a scratch workload or as a copy it leaves a file that does not parse. */
  lemma BrokenName()
    ensures ValidName(BROKEN) && ValidName("a")
    ensures Run([Scratch(BROKEN)]).configs == map[BROKEN := None]
    ensures Run([Scratch("a"), Duplicate("a", BROKEN)]).configs == map["a" := Some(ScratchText("a")), BROKEN := None]
  {
    assert Core(BROKEN) == "a" && Core("a") == "a";
    BrokenRun("a", BROKEN);
  }
}
