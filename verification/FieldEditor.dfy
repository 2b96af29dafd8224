/** Editing one field of the [workload] section of a config file, by pattern and not by parser. */
module FieldEditor {
  import opened Common
  import opened TomlText

  /** `ended`: the last line ends in a newline. */
  datatype Text = Text(lines: seq<Line>, ended: bool)

  const WORKLOAD: Path := ["workload"]

  function FieldPath(field: string): Path { WORKLOAD + [field] }

  // --- What the patterns see ---

  predicate SeesSection(l: Line) {
    l == Header(WORKLOAD, Exact) || (l.Inside? && l.look.LikeSection?)
  }

  predicate SeesBracket(l: Line) {
    (l.Header? && !l.spelling.Indented?) || (l.Inside? && (l.look.LikeSection? || l.look.LikeBracket?))
  }

  predicate SeesField(l: Line, field: string) {
    || (l.Assign? && l.key == field && l.below == [] && l.bare)
    || (l.Inside? && l.look == LikeField(field))
  }

  /** The section header as the pattern wants it: spelled out at the line's start, with a newline after it. */
  predicate OpensBody(t: Text, i: int) {
    0 <= i < |t.lines| && SeesSection(t.lines[i]) && (i + 1 < |t.lines| || t.ended)
  }

  function Opening(t: Text, from: nat): (r: Option<nat>)
    requires from <= |t.lines|
    ensures r == None ==> forall i :: from <= i < |t.lines| ==> !OpensBody(t, i)
    ensures r.Some? ==> from <= r.value && OpensBody(t, r.value) && forall i :: from <= i < r.value ==> !OpensBody(t, i)
    decreases |t.lines| - from
  {
    if from == |t.lines| then None else if OpensBody(t, from) then Some(from) else Opening(t, from + 1)
  }

  /** The first line that sets the field, up to a line starting with a bracket. */
  function Match(lines: seq<Line>, from: nat, field: string): (r: Option<nat>)
    requires from <= |lines|
    ensures r.Some? ==> from <= r.value < |lines| && SeesField(lines[r.value], field)
    decreases |lines| - from
  {
    if from == |lines| || SeesBracket(lines[from]) then None
    else if SeesField(lines[from], field) then Some(from)
    else Match(lines, from + 1, field)
  }

  function Field(field: string, value: string): Line { Assign(field, [], value, true, false) }

  /** The field's line where it ends up inside a value: what it makes of that value is not followed. */
  function Stray(field: string): Line { Inside(LikeField(field), true) }

  function Added(t: Text, field: string, value: string): seq<Line> {
    (if t.lines == [] then [Other("")] else []) + [Header(WORKLOAD, Exact), Field(field, value)]
  }

  /** The file with a line put in that reads as the value. */
  function Put(t: Text, field: string, value: string): Text {
    var h := Opening(t, 0);
    if h == None then Text(t.lines + Added(t, field, value), true)
    else
      var p := h.value + 1;
      var m := Match(t.lines, p, field);
      if m.Some? then
        Text(t.lines[m.value := if t.lines[m.value].Inside? then Stray(field) else Field(field, value)], t.ended)
      else
        var l := if Continues(t.lines[h.value]) then Stray(field) else Field(field, value);
        Text(Inserted(t.lines, p, l), t.ended || p == |t.lines|)
  }

  // --- When the two agree ---

  /** The line is the field's own, and the whole of it. */
  predicate Own(lines: seq<Line>, m: nat)
    requires m < |lines|
  {
    lines[m].Assign? && !lines[m].open && SectionAt(lines, m) == WORKLOAD
  }

  /**
    The line the patterns find is the field's own. Where they find none the field has room, and the
    header they find, if any, is in the section and not inside a value.
   */
  predicate Regular(t: Text, field: string) {
    var h := Opening(t, 0);
    if h == None then Room(t.lines, Opens(WORKLOAD)) && Room(t.lines, Sets(FieldPath(field), 1))
    else RegularFrom(t.lines, h.value, field)
  }

  predicate RegularFrom(lines: seq<Line>, h: nat, field: string)
    requires h < |lines|
  {
    var m := Match(lines, h + 1, field);
    if m.Some? then Own(lines, m.value)
    else SectionAt(lines, h) == WORKLOAD && !Continues(lines[h]) && Room(lines, Sets(FieldPath(field), 1))
  }

  /** The field reads back, every other reading is kept, and the file still parses. */
  ghost predicate Lens(was: seq<Line>, now: seq<Line>, field: string, value: string) {
    && Valid(now)
    && Reads(now, FieldPath(field), value)
    && forall p, v :: p != FieldPath(field) ==> (Reads(now, p, v) <==> Reads(was, p, v))
  }

  // --- The lens laws ---

  lemma AppendIsLens(t: Text, field: string, value: string)
    requires Valid(t.lines) && Opening(t, 0) == None && Regular(t, field)
    ensures Lens(t.lines, Put(t, field, value).lines, field, value)
  {
    var more, l := Added(t, field, value), Field(field, value);
    assert SectionOfOne(more, WORKLOAD, l);
    assert WORKLOAD + [field] + [] == FieldPath(field);
    AppendedValid(t.lines, more, WORKLOAD, l);
    forall p, v
      ensures Reads(t.lines + more, p, v) <==> Reads(t.lines, p, v) || (p == FieldPath(field) && v == value)
    {
      AppendedReads(t.lines, more, WORKLOAD, l, p, v);
    }
  }

  lemma ReplaceIsLens(lines: seq<Line>, m: nat, field: string, value: string)
    requires Valid(lines) && m < |lines| && SeesField(lines[m], field) && Own(lines, m)
    ensures Lens(lines, lines[m := Field(field, value)], field, value)
  {
    var now := lines[m := Field(field, value)];
    assert now == lines[m := lines[m].(value := value)];
    assert Alike(lines, now);
    AlikeValid(lines, now);
    assert FactAt(lines, m).path == FieldPath(field);
    forall p, v ensures Reads(now, p, v) <==> if p == FieldPath(field) then v == value else Reads(lines, p, v) {
      RevaluedReads(lines, m, value, p, v);
    }
  }

  lemma InsertIsLens(lines: seq<Line>, h: nat, field: string, value: string)
    requires Valid(lines) && h < |lines| && SectionAt(lines, h) == WORKLOAD && !Continues(lines[h])
    requires Room(lines, Sets(FieldPath(field), 1))
    ensures Lens(lines, Inserted(lines, h + 1, Field(field, value)), field, value)
  {
    var l := Field(field, value);
    var now := Inserted(lines, h + 1, l);
    assert WORKLOAD + [field] + [] == FieldPath(field);
    assert FactOf(lines, h + 1, l) == Sets(FieldPath(field), 1);
    InsertedValid(lines, h + 1, l);
    forall p, v
      ensures Reads(now, p, v) <==> Reads(lines, p, v) || (p == FieldPath(field) && v == value)
    {
      InsertedReads(lines, h + 1, l, p, v);
    }
  }

  /** On a regular file the edit is a lens, whatever the value. */
  lemma RegularIsLens(t: Text, field: string, value: string)
    requires Valid(t.lines) && Regular(t, field)
    ensures Lens(t.lines, Put(t, field, value).lines, field, value)
  {
    var h := Opening(t, 0);
    if h == None {
      AppendIsLens(t, field, value);
    } else {
      var m := Match(t.lines, h.value + 1, field);
      if m.Some? {
        ReplaceIsLens(t.lines, m.value, field, value);
      } else {
        InsertIsLens(t.lines, h.value, field, value);
      }
    }
  }

  // --- Irregular files ---

  lemma AnotherValue(lines: seq<Line>, p: Path) returns (value: string)
    requires Apart(lines)
    ensures value in {"x", "y"} && !Reads(lines, p, value)
  {
    value := "x";
    if i :| BindsAt(lines, i, p) && lines[i].value == "x" {
      value := "y";
      if j :| BindsAt(lines, j, p) && lines[j].value == "y" { OneBinding(lines, i, j, p); }
    }
  }

  /** A value that goes on cannot lose its first line. */
  lemma HeadlessIsInvalid(lines: seq<Line>, m: nat, l: Line)
    requires Continued(lines) && m < |lines| && Continues(lines[m]) && !Continues(l)
    ensures !Valid(lines[m := l])
  {
    var now := lines[m := l];
    assert OpenBefore(lines, m + 1);
    assert m + 1 < |lines| && lines[m + 1].Inside?;
    assert now[m + 1].Inside? && !OpenBefore(now, m + 1);
  }

  /** A line inside a value in the field's stead gives no reading. */
  lemma StrayReads(lines: seq<Line>, m: nat, field: string, p: Path, v: string)
    requires m < |lines| && lines[m].Inside?
    ensures Reads(lines[m := Stray(field)], p, v) <==> Reads(lines, p, v)
  {
    var now := lines[m := Stray(field)];
    forall i | 0 <= i < |lines| ensures FactAt(now, i) == FactAt(lines, i) { StraySections(lines, m, field, i); }
    if i :| BindsAt(lines, i, p) && lines[i].value == v { assert BindsAt(now, i, p); }
    if i :| BindsAt(now, i, p) && now[i].value == v { assert BindsAt(lines, i, p); }
  }

  lemma {:induction false} StraySections(lines: seq<Line>, m: nat, field: string, j: int)
    requires m < |lines| && lines[m].Inside? && j < |lines|
    ensures SectionAt(lines[m := Stray(field)], j) == SectionAt(lines, j)
    decreases j + 1
  {
    if j >= 0 { StraySections(lines, m, field, j - 1); }
  }

  lemma MismatchBreaks(t: Text, field: string, m: nat) returns (value: string)
    requires Valid(t.lines) && Opening(t, 0).Some? && Match(t.lines, Opening(t, 0).value + 1, field) == Some(m)
    requires !Own(t.lines, m)
    ensures value in {"x", "y"} && !Lens(t.lines, Put(t, field, value).lines, field, value)
  {
    var lines := t.lines;
    if lines[m].Inside? {
      value := AnotherValue(lines, FieldPath(field));
      StrayReads(lines, m, field, FieldPath(field), value);
    } else if lines[m].open {
      value := "x";
      HeadlessIsInvalid(lines, m, Field(field, value));
    } else {
      var p := FactAt(lines, m).path;
      assert p == SectionAt(lines, m) + [field] + [] == SectionAt(lines, m) + [field];
      assert p != FieldPath(field) by {
        assert p[..|p| - 1] == SectionAt(lines, m) && FieldPath(field)[..1] == WORKLOAD;
      }
      value := AnotherValue(lines, p);
      assert lines[m := Field(field, value)] == lines[m := lines[m].(value := value)];
      RevaluedReads(lines, m, value, p, value);
    }
  }

  lemma MisplacedBreaks(t: Text, field: string, h: nat) returns (value: string)
    requires Valid(t.lines) && Opening(t, 0) == Some(h) && Match(t.lines, h + 1, field) == None && !Regular(t, field)
    ensures value in {"x", "y"} && !Lens(t.lines, Put(t, field, value).lines, field, value)
  {
    var lines := t.lines;
    if Continues(lines[h]) {
      value := AnotherValue(lines, FieldPath(field));
      InsertedReads(lines, h + 1, Stray(field), FieldPath(field), value);
    } else {
      var s := SectionAt(lines, h);
      var p := s + [field];
      value := AnotherValue(lines, p);
      var l := Field(field, value);
      assert FactOf(lines, h + 1, l) == Sets(p, |s|) by { assert p + [] == p; }
      InsertedValid(lines, h + 1, l);
      InsertedReads(lines, h + 1, l, p, value);
      assert s != WORKLOAD ==> p != FieldPath(field) by {
        assert p[..|p| - 1] == s && FieldPath(field)[..|FieldPath(field)| - 1] == WORKLOAD;
      }
    }
  }

  /** A value for which an irregular file is not edited as it should be. */
  lemma IrregularBreaks(t: Text, field: string) returns (value: string)
    requires Valid(t.lines) && !Regular(t, field)
    ensures value in {"x", "y"} && !Lens(t.lines, Put(t, field, value).lines, field, value)
  {
    var h := Opening(t, 0);
    if h == None {
      value := "x";
      var more, l := Added(t, field, value), Field(field, value);
      assert SectionOfOne(more, WORKLOAD, l);
      assert WORKLOAD + [field] + [] == FieldPath(field);
      AppendedValid(t.lines, more, WORKLOAD, l);
    } else {
      var m := Match(t.lines, h.value + 1, field);
      if m.Some? {
        value := MismatchBreaks(t, field, m.value);
      } else {
        value := MisplacedBreaks(t, field, h.value);
      }
    }
  }

  // --- Regularity survives, so the laws compose ---

  /** No line looks like the section's header, not even a last one that no newline follows. */
  predicate Settled(t: Text) {
    Opening(t, 0) == None ==> forall i :: 0 <= i < |t.lines| ==> !SeesSection(t.lines[i])
  }

  lemma {:induction false} AlikeMatch(a: seq<Line>, b: seq<Line>, from: nat, field: string)
    requires Alike(a, b) && from <= |a|
    ensures Match(a, from, field) == Match(b, from, field)
    decreases |a| - from
  {
    if from < |a| {
      assert SameShape(a[from], b[from]);
      AlikeMatch(a, b, from + 1, field);
    }
  }

  lemma {:induction false} AlikeOpening(a: Text, b: Text, from: nat)
    requires Alike(a.lines, b.lines) && a.ended == b.ended && from <= |a.lines|
    ensures Opening(a, from) == Opening(b, from)
    decreases |a.lines| - from
  {
    if from < |a.lines| {
      assert SameShape(a.lines[from], b.lines[from]);
      AlikeOpening(a, b, from + 1);
    }
  }

  lemma AlikeRegular(a: Text, b: Text, field: string)
    requires Alike(a.lines, b.lines) && a.ended == b.ended && Regular(a, field)
    ensures Regular(b, field)
  {
    AlikeOpening(a, b, 0);
    var h := Opening(a, 0);
    if h == None {
      AlikeRoom(a.lines, b.lines, Opens(WORKLOAD));
      AlikeRoom(a.lines, b.lines, Sets(FieldPath(field), 1));
    } else {
      AlikeMatch(a.lines, b.lines, h.value + 1, field);
      var m := Match(a.lines, h.value + 1, field);
      var i := if m.Some? then m.value else h.value;
      assert SameShape(a.lines[i], b.lines[i]);
      AlikeSections(a.lines, b.lines, i);
      if m == None { AlikeRoom(a.lines, b.lines, Sets(FieldPath(field), 1)); }
    }
  }

  lemma KeptByReplace(t: Text, m: nat, field: string, value: string, other: string)
    requires m < |t.lines| && SeesField(t.lines[m], field) && Own(t.lines, m) && Regular(t, other)
    ensures Regular(Text(t.lines[m := Field(field, value)], t.ended), other)
  {
    var now := Text(t.lines[m := Field(field, value)], t.ended);
    assert Alike(t.lines, now.lines);
    AlikeRegular(t, now, other);
  }

  lemma FieldsDoNotClash(f: string, g: string)
    requires f != g
    ensures !Clash(Sets(FieldPath(f), 1), Sets(FieldPath(g), 1)) && !Clash(Sets(FieldPath(f), 1), Opens(WORKLOAD))
  {
    assert FieldPath(f)[1] == f && FieldPath(g)[1] == g;
  }

  // --- ... an insertion

  lemma InsertOpening(t: Text, l: Line, now: Text)
    requires Opening(t, 0).Some? && now.lines == Inserted(t.lines, Opening(t, 0).value + 1, l)
    ensures Opening(now, 0) == Opening(t, 0)
  {
    var h := Opening(t, 0).value;
    forall j | 0 <= j <= h ensures now.lines[j] == t.lines[j] {}
    forall j | 0 <= j < h ensures !OpensBody(now, j) { assert !OpensBody(t, j); }
    assert OpensBody(now, h);
  }

  lemma {:induction false} MatchShifted(lines: seq<Line>, p: nat, l: Line, from: nat, field: string)
    requires p <= from <= |lines|
    ensures var m := Match(lines, from, field);
            Match(Inserted(lines, p, l), from + 1, field) == if m == None then None else Some(m.value + 1)
    decreases |lines| - from
  {
    if from < |lines| { MatchShifted(lines, p, l, from + 1, field); }
  }

  lemma InsertRoom(lines: seq<Line>, p: nat, field: string, value: string, other: string)
    requires p <= |lines| && SectionAt(lines, p - 1) == WORKLOAD && field != other
    requires Room(lines, Sets(FieldPath(other), 1))
    ensures Room(Inserted(lines, p, Field(field, value)), Sets(FieldPath(other), 1))
  {
    var l, f := Field(field, value), Sets(FieldPath(other), 1);
    var now := Inserted(lines, p, l);
    FieldsDoNotClash(other, field);
    assert WORKLOAD + [field] + [] == FieldPath(field);
    forall i | 0 <= i < |now| ensures !Clash(f, FactAt(now, i)) {
      InsertedFacts(lines, p, l, i);
    }
  }

  lemma InsertOwn(lines: seq<Line>, p: nat, l: Line, m: nat)
    requires p <= m < |lines| && !l.Header? && Own(lines, m)
    ensures Own(Inserted(lines, p, l), m + 1)
  {
    InsertedSections(lines, p, l, m + 1);
    assert Inserted(lines, p, l)[m + 1] == lines[m];
  }

  /** The field now has its own line. */
  lemma InsertedFrom(lines: seq<Line>, h: nat, field: string, value: string)
    requires h < |lines| && SectionAt(lines, h) == WORKLOAD
    ensures RegularFrom(Inserted(lines, h + 1, Field(field, value)), h, field)
  {
    var l := Field(field, value);
    InsertedSections(lines, h + 1, l, h + 1);
    assert Inserted(lines, h + 1, l)[h + 1] == l;
  }

  /** Another field is where it was, one line further, or has room still. */
  lemma InsertedBeside(lines: seq<Line>, h: nat, field: string, value: string, other: string)
    requires h < |lines| && SectionAt(lines, h) == WORKLOAD && field != other && RegularFrom(lines, h, other)
    ensures RegularFrom(Inserted(lines, h + 1, Field(field, value)), h, other)
  {
    var l, p := Field(field, value), h + 1;
    var now, m := Inserted(lines, p, l), Match(lines, p, other);
    assert now[p] == l && now[h] == lines[h];
    MatchShifted(lines, p, l, p, other);
    assert Match(now, p, other) == Match(now, p + 1, other);
    if m.Some? {
      InsertOwn(lines, p, l, m.value);
    } else {
      InsertedSections(lines, p, l, h);
      InsertRoom(lines, p, field, value, other);
    }
  }

  lemma KeptByInsert(t: Text, field: string, value: string, other: string)
    requires Opening(t, 0).Some? && Match(t.lines, Opening(t, 0).value + 1, field) == None
    requires Regular(t, field) && Regular(t, other)
    ensures Regular(Put(t, field, value), other)
  {
    var h := Opening(t, 0).value;
    InsertOpening(t, Field(field, value), Put(t, field, value));
    if other == field {
      InsertedFrom(t.lines, h, field, value);
    } else {
      InsertedBeside(t.lines, h, field, value, other);
    }
  }

  // --- ... and an append

  lemma AppendRoom(t: Text, field: string, value: string, other: string)
    requires Room(t.lines, Sets(FieldPath(other), 1)) && field != other
    ensures Room(t.lines + Added(t, field, value), Sets(FieldPath(other), 1))
  {
    var more, l, f := Added(t, field, value), Field(field, value), Sets(FieldPath(other), 1);
    assert SectionOfOne(more, WORKLOAD, l);
    FieldsDoNotClash(other, field);
    assert WORKLOAD + [field] + [] == FieldPath(field);
    forall i | 0 <= i < |t.lines + more| ensures !Clash(f, FactAt(t.lines + more, i)) {
      AppendedFacts(t.lines, more, WORKLOAD, l, i);
    }
  }

  lemma AppendOpening(t: Text, field: string, value: string)
    requires Opening(t, 0) == None && Settled(t)
    ensures var now := Put(t, field, value); Opening(now, 0) == Some(|now.lines| - 2)
  {
    var now := Put(t, field, value);
    var n := |now.lines|;
    forall i | 0 <= i < n - 2 ensures !OpensBody(now, i) {
      assert i < |t.lines| ==> now.lines[i] == t.lines[i];
    }
    assert now.lines[n - 2] == Header(WORKLOAD, Exact) && OpensBody(now, n - 2);
  }

  lemma KeptByAppend(t: Text, field: string, value: string, other: string)
    requires Opening(t, 0) == None && Settled(t) && Regular(t, other)
    ensures Regular(Put(t, field, value), other)
  {
    var now, l := Put(t, field, value), Field(field, value);
    var n := |now.lines|;
    AppendOpening(t, field, value);
    assert now.lines[n - 2] == Header(WORKLOAD, Exact) && now.lines[n - 1] == l;
    assert SectionAt(now.lines, n - 1) == SectionAt(now.lines, n - 2) == WORKLOAD;
    if other != field {
      assert Match(now.lines, n - 1, other) == Match(now.lines, n, other) == None;
      AppendRoom(t, field, value, other);
    }
  }

  lemma RegularKept(t: Text, field: string, value: string, other: string)
    requires Settled(t) && Regular(t, field) && Regular(t, other)
    ensures Regular(Put(t, field, value), other) && Settled(Put(t, field, value))
  {
    var h := Opening(t, 0);
    if h == None {
      KeptByAppend(t, field, value, other);
      AppendOpening(t, field, value);
    } else {
      var m := Match(t.lines, h.value + 1, field);
      if m.Some? {
        KeptByReplace(t, m.value, field, value, other);
        assert Alike(t.lines, Put(t, field, value).lines);
        AlikeOpening(t, Put(t, field, value), 0);
      } else {
        KeptByInsert(t, field, value, other);
        InsertOpening(t, Field(field, value), Put(t, field, value));
      }
    }
  }

  ghost predicate SameReadings(a: Text, b: Text) {
    forall p, v :: Reads(a.lines, p, v) <==> Reads(b.lines, p, v)
  }

  lemma LensReads(was: seq<Line>, now: seq<Line>, field: string, value: string, p: Path, v: string)
    requires Lens(was, now, field, value)
    ensures Reads(now, p, v) <==> if p == FieldPath(field) then v == value else Reads(was, p, v)
  {
    if p == FieldPath(field) {
      var i :| BindsAt(now, i, p) && now[i].value == value;
      if j :| BindsAt(now, j, p) && now[j].value == v { OneBinding(now, i, j, p); }
    }
  }

  lemma SecondPutWins(t: Text, field: string, value: string, later: string)
    requires Valid(t.lines) && Settled(t) && Regular(t, field)
    ensures SameReadings(Put(Put(t, field, value), field, later), Put(t, field, later))
  {
    var once, direct := Put(t, field, value), Put(t, field, later);
    RegularIsLens(t, field, value);
    RegularIsLens(t, field, later);
    RegularKept(t, field, value, field);
    RegularIsLens(once, field, later);
    forall p, v ensures Reads(Put(once, field, later).lines, p, v) <==> Reads(direct.lines, p, v) {
      LensReads(t.lines, once.lines, field, value, p, v);
      LensReads(t.lines, direct.lines, field, later, p, v);
      LensReads(once.lines, Put(once, field, later).lines, field, later, p, v);
    }
  }

  lemma PutsCommute(t: Text, f: string, x: string, g: string, y: string)
    requires Valid(t.lines) && Settled(t) && Regular(t, f) && Regular(t, g) && f != g
    ensures SameReadings(Put(Put(t, f, x), g, y), Put(Put(t, g, y), f, x))
  {
    var a, b := Put(t, f, x), Put(t, g, y);
    RegularIsLens(t, f, x);
    RegularIsLens(t, g, y);
    RegularKept(t, f, x, g);
    RegularKept(t, g, y, f);
    RegularIsLens(a, g, y);
    RegularIsLens(b, f, x);
    assert FieldPath(f) != FieldPath(g) by { assert FieldPath(f)[1] == f && FieldPath(g)[1] == g; }
    forall p, v ensures Reads(Put(a, g, y).lines, p, v) <==> Reads(Put(b, f, x).lines, p, v) {
      LensReads(t.lines, a.lines, f, x, p, v);
      LensReads(t.lines, b.lines, g, y, p, v);
      LensReads(a.lines, Put(a, g, y).lines, g, y, p, v);
      LensReads(b.lines, Put(b, f, x).lines, f, x, p, v);
    }
  }
}
