/**
  Setting a field of the [workload] section to a text value: the line as it is really written, and
  what is read back.
 */
module FieldSetter {
  import opened Common
  import opened FieldEditor
  import opened TomlText
  import Literals

  /** The pattern finds a line of the field to replace. */
  predicate Replaces(t: Text, field: string) {
    var h := Opening(t, 0);
    h.Some? && Match(t.lines, h.value + 1, field).Some?
  }

  /** Raised: the template refuses the literal. Unparsable: the file no longer parses. */
  datatype Edit = Raised | Unparsable | Wrote(text: Text)

  function Written(t: Text, field: string, read: Option<string>): Edit {
    if read == None then Unparsable else Wrote(Put(t, field, read.value))
  }

  /** A replaced line goes through a template, an inserted one does not. */
  function SetField(t: Text, field: string, value: string): Edit {
    if !Replaces(t, field) then Written(t, field, Literals.InsertRead(value))
    else
      var line := Literals.Expand(Literals.Quoted(value));
      if line == None then Raised else Written(t, field, Literals.Read(line.value))
  }

  /** The value gets through: a condition on the file's pattern match and the value's characters. */
  predicate Survives(t: Text, field: string, value: string) {
    if Replaces(t, field) then Literals.ReplaceSafe(value) else Literals.InsertSafe(value)
  }

  /** What a set does with a value that gets through, and with one that does not. */
  lemma SetFieldExactly(t: Text, field: string, value: string)
    ensures Survives(t, field, value) ==> SetField(t, field, value) == Wrote(Put(t, field, value))
    ensures !Survives(t, field, value) ==>
              match SetField(t, field, value)
              case Raised => Replaces(t, field) && Literals.HasRefused(value)
              case Unparsable => true
              case Wrote(text) => Replaces(t, field) && Literals.BACKSLASH in value &&
                                  exists w :: text == Put(t, field, w) && |w| < |value|
    ensures Replaces(t, field) && Literals.HasRefused(value) ==> SetField(t, field, value) == Raised
  {
    Literals.InsertReadsExactly(value);
    Literals.ExpandsExactly(value);
    Literals.ReplaceReadsExactly(value);
    if Replaces(t, field) && Literals.ReplaceSafe(value) {
      assert !Literals.HasRefused(value);
    } else if Replaces(t, field) && !Literals.HasRefused(value) {
      if Literals.ReplaceRead(value).Some? {
        if Literals.BACKSLASH in value {
          Literals.ReplacingShortens(value);
        } else {
          Literals.UnkeptBreaks(value);
        }
      }
    }
  }

  /** The set reads back, keeps every other reading and leaves a valid file. */
  ghost predicate Sets(t: Text, field: string, value: string) {
    SetField(t, field, value).Wrote? && Lens(t.lines, SetField(t, field, value).text.lines, field, value)
  }

  /** On a regular file a set does what it should exactly when the value gets through. */
  lemma SetReadsBackExactly(t: Text, field: string, value: string)
    requires Valid(t.lines) && Regular(t, field)
    ensures Sets(t, field, value) <==> Survives(t, field, value)
  {
    SetFieldExactly(t, field, value);
    RegularIsLens(t, field, value);
    if !Survives(t, field, value) && SetField(t, field, value).Wrote? {
      var text := SetField(t, field, value).text;
      var w :| text == Put(t, field, w) && |w| < |value|;
      RegularIsLens(t, field, w);
      LensReads(t.lines, text.lines, field, w, FieldPath(field), value);
    }
  }

  /** A file takes every value that any line can carry exactly when it is regularly spelled. */
  lemma LensExactly(t: Text, field: string)
    requires Valid(t.lines)
    ensures (forall value :: Literals.ReplaceSafe(value) ==> Sets(t, field, value)) <==> Regular(t, field)
  {
    if Regular(t, field) {
      forall value | Literals.ReplaceSafe(value) ensures Sets(t, field, value) {
        SetReadsBackExactly(t, field, value);
      }
    } else {
      var value := IrregularBreaks(t, field);
      assert Literals.ReplaceSafe(value);
      SetFieldExactly(t, field, value);
      assert !Sets(t, field, value);
    }
  }

  lemma SafeSets(t: Text, field: string, value: string)
    requires Literals.ReplaceSafe(value)
    ensures SetField(t, field, value) == Wrote(Put(t, field, value))
  {
    SetFieldExactly(t, field, value);
  }

  /** A second set reads as if it were the only one. */
  lemma SecondSetWins(t: Text, field: string, value: string, later: string)
    requires Valid(t.lines) && Settled(t) && Regular(t, field)
    requires Literals.ReplaceSafe(value) && Literals.ReplaceSafe(later)
    ensures SetField(t, field, value).Wrote? && SetField(t, field, later).Wrote?
    ensures var twice := SetField(SetField(t, field, value).text, field, later);
            twice.Wrote? && SameReadings(twice.text, SetField(t, field, later).text)
  {
    SafeSets(t, field, value);
    SafeSets(t, field, later);
    SafeSets(Put(t, field, value), field, later);
    SecondPutWins(t, field, value, later);
  }

  /** Sets of different fields read alike in either order. */
  lemma SetsCommute(t: Text, f: string, x: string, g: string, y: string)
    requires Valid(t.lines) && Settled(t) && Regular(t, f) && Regular(t, g) && f != g
    requires Literals.ReplaceSafe(x) && Literals.ReplaceSafe(y)
    ensures SetField(t, f, x).Wrote? && SetField(t, g, y).Wrote?
    ensures var a, b := SetField(SetField(t, f, x).text, g, y), SetField(SetField(t, g, y).text, f, x);
            a.Wrote? && b.Wrote? && SameReadings(a.text, b.text)
  {
    SafeSets(t, f, x);
    SafeSets(t, g, y);
    SafeSets(Put(t, f, x), g, y);
    SafeSets(Put(t, g, y), f, x);
    PutsCommute(t, f, x, g, y);
  }
}
