/**
  The per-request egress record on disk: its lines, its rotated generations and their names,
  and the reader that walks them oldest first.
 */
module RecordFiles {
  import opened Common
  import opened Sorting

  /** The fields the reader selects and groups on; a missing or ill-typed field is None. */
  datatype Record = Record(
    ts: Option<int>, id: Option<string>, req: Option<int>,
    decision: Option<string>, mode: Option<string>, plane: Option<string>, reason: Option<string>,
    httpMethod: Option<string>, status: Option<int>, host: Option<string>)

  /** A stripped line: empty, not JSON, JSON but not an object, or a record. */
  datatype Line = Blank | Torn | NotTable | Rec(record: Record)

  /** How reading a file ends: cleanly, with an OSError, or with the EOFError of a truncated gzip stream. */
  datatype End = Clean | OsFault | Truncated

  /** A generation: its mtime (None if stat fails), the lines that can be read, and how reading ends. */
  datatype File = File(mtime: Option<int>, lines: seq<Line>, end: End)

  // --- Generation names ---

  predicate Digit(c: char) {
    '0' <= c <= '9'
  }

  predicate AllDigits(s: string) {
    forall i | 0 <= i < |s| :: Digit(s[i])
  }

  /** int() of a digit string. */
  function ParseDecimal(s: string): nat
    requires AllDigits(s)
  {
    if s == "" then 0 else 10 * ParseDecimal(s[..|s| - 1]) + (s[|s| - 1] as int - '0' as int)
  }

  function Decimal(n: nat): (s: string)
    ensures s != "" && AllDigits(s)
    ensures ParseDecimal(s) == n
  {
    var last := ('0' as int + n % 10) as char;
    if n < 10 then [last] else Decimal(n / 10) + [last]
  }

  predicate EndsWith(s: string, t: string) {
    |t| <= |s| && s[|s| - |t|..] == t
  }

  /** The generation number a directory entry carries, if it is one of ours. */
  function Generation(base: string, name: string): Option<nat> {
    if !(base + "." <= name) then None
    else
      var suffix := name[|base| + 1..];
      var core := if EndsWith(suffix, ".gz") then suffix[..|suffix| - 3] else suffix;
      if core != "" && AllDigits(core) then Some(ParseDecimal(core)) else None
  }

  function GenerationName(base: string, k: nat, gz: bool): string {
    base + "." + Decimal(k) + if gz then ".gz" else ""
  }

  lemma GenerationRoundTrip(base: string, k: nat, gz: bool)
    ensures Generation(base, GenerationName(base, k, gz)) == Some(k)
  {
    var name, d := GenerationName(base, k, gz), Decimal(k);
    assert name[..|base| + 1] == base + ".";
    var suffix := name[|base| + 1..];
    if gz {
      assert suffix == d + ".gz";
      assert suffix[|suffix| - 3..] == ".gz";
      assert suffix[..|suffix| - 3] == d;
    } else {
      assert suffix == d;
    }
  }

  lemma GenerationNamesDiffer(base: string, k: nat)
    ensures GenerationName(base, k, true) != GenerationName(base, k, false)
  {
    assert |GenerationName(base, k, true)| == |GenerationName(base, k, false)| + 3;
  }

  // --- generations() ---

  /** The sort key of a generation: a higher number sorts first. */
  function KeyOf(k: nat): Key {
    Key(0, 0 - k)
  }

  /** The rotated candidates of a listing, keyed so that a higher number sorts first. */
  function Candidates(base: string, listing: seq<string>): seq<Keyed<string>> {
    if listing == [] then []
    else
      var name := listing[|listing| - 1];
      var front := Candidates(base, listing[..|listing| - 1]);
      var g := Generation(base, name);
      if g.Some? then front + [(KeyOf(g.value), name)] else front
  }

  lemma {:induction false} CandidateNumber(base: string, listing: seq<string>, x: Keyed<string>)
    requires x in Candidates(base, listing)
    ensures x.1 in listing && Generation(base, x.1).Some? && x.0 == KeyOf(Generation(base, x.1).value)
  {
    var name := listing[|listing| - 1];
    if x in Candidates(base, listing[..|listing| - 1]) {
      CandidateNumber(base, listing[..|listing| - 1], x);
    }
  }

  function Ordered(base: string, listing: seq<string>, liveExists: bool): seq<string> {
    Values(StableSort(Candidates(base, listing))) + if liveExists then [base] else []
  }

  /** The names to read, in the order they were written. */
  method Generations(base: string, listing: seq<string>, liveExists: bool) returns (ordered: seq<string>)
    ensures ordered == Ordered(base, listing, liveExists)
  {
    var rotated: seq<Keyed<string>> := [];
    for i := 0 to |listing|
      invariant rotated == Candidates(base, listing[..i])
    {
      assert listing[..i + 1][..i] == listing[..i];
      var name := listing[i];
      if !(base + "." <= name) {
        continue;
      }
      var suffix := name[|base| + 1..];
      if EndsWith(suffix, ".gz") {
        suffix := suffix[..|suffix| - 3];
      }
      if suffix == "" || !AllDigits(suffix) {
        continue;
      }
      rotated := rotated + [(KeyOf(ParseDecimal(suffix)), name)];
    }
    assert listing[..|listing|] == listing;
    ordered := Values(StableSort(rotated));
    if liveExists {
      ordered := ordered + [base];
    }
  }
}
