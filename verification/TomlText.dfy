/**
  A config file as lines. A line has a meaning, what a TOML reader makes of it, and a look, what the
  patterns of an editor see in it. Each element of an array of tables counts as a table of its own.
 */
module TomlText {
  import opened Common

  type Path = seq<string>

  /** Exact: `[name]` at the start of the line. Flush: any other spelling that starts with a bracket. */
  datatype Spelling = Exact | Flush | Indented

  /** What a line in the middle of a value looks like. */
  datatype Look = Plain | LikeSection | LikeBracket | LikeField(key: string)

  /**
    Assign: the key's first part, its further dotted parts, and the whole value. `open`: the value
    goes on in the next line. Inside: a further line of a value; `more`: and not the last.
   */
  datatype Line =
    | Header(path: Path, spelling: Spelling)
    | Assign(key: string, below: Path, value: string, bare: bool, open: bool)
    | Inside(look: Look, more: bool)
    | Other(text: string)

  // --- Reading ---

  function SectionAt(lines: seq<Line>, i: int): Path
    requires i < |lines|
    decreases i + 1
  {
    if i < 0 then [] else if lines[i].Header? then lines[i].path else SectionAt(lines, i - 1)
  }

  /** What a line defines: a table by its header, or a value in a table of some depth. */
  datatype Fact = Silent | Opens(path: Path) | Sets(path: Path, depth: nat)

  function FactAt(lines: seq<Line>, i: nat): Fact
    requires i < |lines|
  {
    match lines[i]
    case Header(path, _) => Opens(path)
    case Assign(key, below, _, _, _) => Sets(SectionAt(lines, i) + [key] + below, |SectionAt(lines, i)|)
    case _ => Silent
  }

  /** A header against a key: the key's value cannot be a table, nor can a header reopen a dotted key's table. */
  predicate Reopens(header: Path, key: Path, depth: nat) {
    key <= header || (header <= key && |header| > depth)
  }

  predicate Clash(f: Fact, g: Fact) {
    match (f, g)
    case (Opens(p), Opens(q)) => p == q
    case (Sets(p, _), Sets(q, _)) => p <= q || q <= p
    case (Opens(p), Sets(q, depth)) => Reopens(p, q, depth)
    case (Sets(p, depth), Opens(q)) => Reopens(q, p, depth)
    case _ => false
  }

  predicate Continues(l: Line) {
    (l.Assign? && l.open) || (l.Inside? && l.more)
  }

  predicate OpenBefore(lines: seq<Line>, i: int) {
    0 < i <= |lines| && Continues(lines[i - 1])
  }

  /** Every value that goes on is gone on with, and nothing else is. */
  predicate Continued(lines: seq<Line>) {
    && (forall i :: 0 <= i < |lines| ==> (lines[i].Inside? <==> OpenBefore(lines, i)))
    && !OpenBefore(lines, |lines|)
  }

  predicate Apart(lines: seq<Line>) {
    forall i, j :: 0 <= i < j < |lines| ==> !Clash(FactAt(lines, i), FactAt(lines, j))
  }

  /** The file parses. */
  predicate Valid(lines: seq<Line>) {
    Continued(lines) && Apart(lines)
  }

  predicate BindsAt(lines: seq<Line>, i: int, p: Path) {
    0 <= i < |lines| && FactAt(lines, i).Sets? && FactAt(lines, i).path == p
  }

  ghost predicate Reads(lines: seq<Line>, p: Path, v: string) {
    exists i :: BindsAt(lines, i, p) && lines[i].value == v
  }

  /** Nothing in the file stands in the way of a definition. */
  predicate Room(lines: seq<Line>, f: Fact) {
    forall i :: 0 <= i < |lines| ==> !Clash(f, FactAt(lines, i))
  }

  lemma ClashIsMutual(f: Fact, g: Fact)
    ensures Clash(f, g) <==> Clash(g, f)
  {
  }

  lemma OneBinding(lines: seq<Line>, i: int, j: int, p: Path)
    requires Apart(lines) && BindsAt(lines, i, p) && BindsAt(lines, j, p)
    ensures i == j
  {
    assert Clash(FactAt(lines, i), FactAt(lines, j)) && Clash(FactAt(lines, j), FactAt(lines, i));
  }

  // --- A line with another value ---

  /** The same file up to values. */
  predicate Alike(a: seq<Line>, b: seq<Line>) {
    |a| == |b| && forall i :: 0 <= i < |a| ==> SameShape(a[i], b[i])
  }

  predicate SameShape(l: Line, k: Line) {
    l == k || (l.Assign? && k.Assign? && k == l.(value := k.value))
  }

  lemma {:induction false} AlikeSections(a: seq<Line>, b: seq<Line>, j: int)
    requires Alike(a, b) && j < |a|
    ensures SectionAt(a, j) == SectionAt(b, j)
    decreases j + 1
  {
    if j >= 0 {
      assert SameShape(a[j], b[j]);
      AlikeSections(a, b, j - 1);
    }
  }

  lemma AlikeFacts(a: seq<Line>, b: seq<Line>, j: nat)
    requires Alike(a, b) && j < |a|
    ensures FactAt(a, j) == FactAt(b, j)
  {
    AlikeSections(a, b, j);
    assert SameShape(a[j], b[j]);
  }

  lemma AlikeContinued(a: seq<Line>, b: seq<Line>)
    requires Alike(a, b) && Continued(a)
    ensures Continued(b)
  {
    forall i | 0 <= i <= |a| ensures OpenBefore(a, i) <==> OpenBefore(b, i) {
      if i > 0 { assert SameShape(a[i - 1], b[i - 1]); }
    }
    forall i | 0 <= i < |a| ensures a[i].Inside? <==> b[i].Inside? { assert SameShape(a[i], b[i]); }
  }

  lemma AlikeValid(a: seq<Line>, b: seq<Line>)
    requires Alike(a, b) && Valid(a)
    ensures Valid(b)
  {
    AlikeContinued(a, b);
    forall i, j | 0 <= i < j < |a| ensures !Clash(FactAt(b, i), FactAt(b, j)) {
      AlikeFacts(a, b, i);
      AlikeFacts(a, b, j);
    }
  }

  lemma AlikeRoom(a: seq<Line>, b: seq<Line>, f: Fact)
    requires Alike(a, b) && Room(a, f)
    ensures Room(b, f)
  {
    forall i | 0 <= i < |b| ensures !Clash(f, FactAt(b, i)) { AlikeFacts(a, b, i); }
  }

  /** Another value on one line changes the reading of its key and no other. */
  lemma RevaluedReads(lines: seq<Line>, m: nat, value: string, p: Path, v: string)
    requires Apart(lines) && m < |lines| && lines[m].Assign?
    ensures var now := lines[m := lines[m].(value := value)];
            Reads(now, p, v) <==> if p == FactAt(lines, m).path then v == value else Reads(lines, p, v)
  {
    var now := lines[m := lines[m].(value := value)];
    assert Alike(lines, now);
    AlikeFacts(lines, now, m);
    if i :| BindsAt(now, i, p) && now[i].value == v {
      AlikeFacts(lines, now, i);
      if p == FactAt(lines, m).path { OneBinding(lines, i, m, p); }
    }
    if i :| BindsAt(lines, i, p) && lines[i].value == v { AlikeFacts(lines, now, i); }
    assert p == FactAt(lines, m).path ==> BindsAt(now, m, p) && now[m].value == value;
  }

  // --- An inserted line ---

  function Inserted(lines: seq<Line>, p: nat, l: Line): seq<Line>
    requires p <= |lines|
  {
    lines[..p] + [l] + lines[p..]
  }

  function Before(p: nat, j: int): int { if j < p then j else j - 1 }

  lemma {:induction false} InsertedSections(lines: seq<Line>, p: nat, l: Line, j: int)
    requires p <= |lines| && !l.Header? && j <= |lines|
    ensures SectionAt(Inserted(lines, p, l), j) == SectionAt(lines, Before(p, j))
    decreases j + 1
  {
    if j >= 0 {
      InsertedSections(lines, p, l, j - 1);
    }
  }

  /** What a line defines where it is inserted. */
  function FactOf(lines: seq<Line>, p: nat, l: Line): Fact
    requires p <= |lines|
  {
    if l.Assign? then Sets(SectionAt(lines, p - 1) + [l.key] + l.below, |SectionAt(lines, p - 1)|) else Silent
  }

  lemma InsertedFacts(lines: seq<Line>, p: nat, l: Line, j: nat)
    requires p <= |lines| && !l.Header? && j <= |lines|
    ensures FactAt(Inserted(lines, p, l), j) == if j == p then FactOf(lines, p, l) else FactAt(lines, Before(p, j))
  {
    InsertedSections(lines, p, l, j);
  }

  lemma RoomyIsApart(lines: seq<Line>, p: nat, l: Line)
    requires Apart(lines) && p <= |lines| && !l.Header? && Room(lines, FactOf(lines, p, l))
    ensures Apart(Inserted(lines, p, l))
  {
    var now, f := Inserted(lines, p, l), FactOf(lines, p, l);
    forall i, j | 0 <= i < j < |now| ensures !Clash(FactAt(now, i), FactAt(now, j)) {
      InsertedFacts(lines, p, l, i);
      InsertedFacts(lines, p, l, j);
      if j == p { ClashIsMutual(f, FactAt(lines, i)); }
    }
  }

  lemma ApartIsRoomy(lines: seq<Line>, p: nat, l: Line, i: nat)
    requires p <= |lines| && !l.Header? && i < |lines| && Apart(Inserted(lines, p, l))
    ensures !Clash(FactOf(lines, p, l), FactAt(lines, i))
  {
    var at := if i < p then i else i + 1;
    InsertedFacts(lines, p, l, p);
    InsertedFacts(lines, p, l, at);
    ClashIsMutual(FactOf(lines, p, l), FactAt(lines, i));
  }

  lemma InsertedApart(lines: seq<Line>, p: nat, l: Line)
    requires Apart(lines) && p <= |lines| && !l.Header?
    ensures Apart(Inserted(lines, p, l)) <==> Room(lines, FactOf(lines, p, l))
  {
    if Apart(Inserted(lines, p, l)) {
      forall i | 0 <= i < |lines| ensures !Clash(FactOf(lines, p, l), FactAt(lines, i)) {
        ApartIsRoomy(lines, p, l, i);
      }
    } else if Room(lines, FactOf(lines, p, l)) {
      RoomyIsApart(lines, p, l);
    }
  }

  lemma InsertedOpenBefore(lines: seq<Line>, p: nat, l: Line, i: nat)
    requires p <= |lines| && !Continues(l) && i <= |lines| + 1
    ensures OpenBefore(Inserted(lines, p, l), i) <==>
            if i <= p then OpenBefore(lines, i) else i != p + 1 && OpenBefore(lines, i - 1)
  {
    var now := Inserted(lines, p, l);
    assert 0 < i <= p ==> now[i - 1] == lines[i - 1];
    assert i > p + 1 ==> now[i - 1] == lines[i - 2];
  }

  lemma InsertedContinued(lines: seq<Line>, p: nat, l: Line)
    requires Continued(lines) && p <= |lines| && !OpenBefore(lines, p) && l.Assign? && !l.open
    ensures Continued(Inserted(lines, p, l))
  {
    var now := Inserted(lines, p, l);
    forall i | 0 <= i < |now| ensures now[i].Inside? <==> OpenBefore(now, i) {
      InsertedOpenBefore(lines, p, l, i);
      assert i != p ==> now[i] == lines[Before(p, i)];
    }
    InsertedOpenBefore(lines, p, l, |now|);
  }

  lemma InsertedValid(lines: seq<Line>, p: nat, l: Line)
    requires Valid(lines) && p <= |lines| && !OpenBefore(lines, p) && l.Assign? && !l.open
    ensures Valid(Inserted(lines, p, l)) <==> Room(lines, FactOf(lines, p, l))
  {
    InsertedApart(lines, p, l);
    InsertedContinued(lines, p, l);
  }

  /** An inserted value is one more reading; any other inserted line is none. */
  lemma InsertedReads(lines: seq<Line>, p: nat, l: Line, q: Path, v: string)
    requires p <= |lines| && !l.Header?
    ensures Reads(Inserted(lines, p, l), q, v) <==>
            Reads(lines, q, v) || (l.Assign? && q == FactOf(lines, p, l).path && v == l.value)
  {
    var now := Inserted(lines, p, l);
    InsertedFacts(lines, p, l, p);
    assert now[p] == l;
    if i :| BindsAt(lines, i, q) && lines[i].value == v {
      var at := if i < p then i else i + 1;
      InsertedFacts(lines, p, l, at);
      assert now[at] == lines[i];
      assert BindsAt(now, at, q);
    }
    if i :| BindsAt(now, i, q) && now[i].value == v {
      InsertedFacts(lines, p, l, i);
      if i != p {
        assert now[i] == lines[Before(p, i)];
        assert BindsAt(lines, Before(p, i), q);
      }
    }
    assert l.Assign? && q == FactOf(lines, p, l).path ==> BindsAt(now, p, q);
  }

  // --- An appended section ---

  /** A header and one value under it, after perhaps some blank lines. */
  predicate SectionOfOne(more: seq<Line>, path: Path, l: Line) {
    && |more| >= 2 && more[|more| - 2].Header? && more[|more| - 2].path == path && more[|more| - 1] == l
    && l.Assign? && !l.open && forall i :: 0 <= i < |more| - 2 ==> more[i].Other?
  }

  lemma {:induction false} AppendedSections(lines: seq<Line>, more: seq<Line>, j: int)
    requires j < |lines|
    ensures SectionAt(lines + more, j) == SectionAt(lines, j)
    decreases j + 1
  {
    if j >= 0 { AppendedSections(lines, more, j - 1); }
  }

  lemma AppendedFacts(lines: seq<Line>, more: seq<Line>, path: Path, l: Line, j: nat)
    requires SectionOfOne(more, path, l) && j < |lines + more|
    ensures var n := |lines + more|;
            FactAt(lines + more, j) ==
            if j < |lines| then FactAt(lines, j)
            else if j == n - 2 then Opens(path)
            else if j == n - 1 then Sets(path + [l.key] + l.below, |path|)
            else Silent
  {
    var now := lines + more;
    if j < |lines| {
      AppendedSections(lines, more, j);
    } else {
      assert now[j] == more[j - |lines|];
      assert now[|now| - 2] == more[|more| - 2];
      assert SectionAt(now, |now| - 1) == SectionAt(now, |now| - 2) == path;
    }
  }

  lemma AppendedApart(lines: seq<Line>, more: seq<Line>, path: Path, l: Line)
    requires Apart(lines) && SectionOfOne(more, path, l)
    ensures Apart(lines + more) <==>
            Room(lines, Opens(path)) && Room(lines, Sets(path + [l.key] + l.below, |path|))
  {
    var now, f, g := lines + more, Opens(path), Sets(path + [l.key] + l.below, |path|);
    var n := |now|;
    AppendedFacts(lines, more, path, l, n - 2);
    AppendedFacts(lines, more, path, l, n - 1);
    if Room(lines, f) && Room(lines, g) {
      forall i, j | 0 <= i < j < n ensures !Clash(FactAt(now, i), FactAt(now, j)) {
        AppendedFacts(lines, more, path, l, i);
        AppendedFacts(lines, more, path, l, j);
        if i < |lines| {
          ClashIsMutual(f, FactAt(lines, i));
          ClashIsMutual(g, FactAt(lines, i));
        }
      }
    } else {
      var i :| 0 <= i < |lines| && (Clash(f, FactAt(lines, i)) || Clash(g, FactAt(lines, i)));
      AppendedFacts(lines, more, path, l, i);
      ClashIsMutual(f, FactAt(lines, i));
      ClashIsMutual(g, FactAt(lines, i));
      assert Clash(FactAt(now, i), FactAt(now, n - 2)) || Clash(FactAt(now, i), FactAt(now, n - 1));
    }
  }

  lemma AppendedContinued(lines: seq<Line>, more: seq<Line>, path: Path, l: Line)
    requires Continued(lines) && SectionOfOne(more, path, l)
    ensures Continued(lines + more)
  {
    var now := lines + more;
    forall i | 0 <= i <= |now| ensures OpenBefore(now, i) <==> i <= |lines| && OpenBefore(lines, i) {
      if |lines| < i { assert now[i - 1] == more[i - 1 - |lines|]; }
    }
    forall i | |lines| <= i < |now| ensures !now[i].Inside? { assert now[i] == more[i - |lines|]; }
  }

  lemma AppendedValid(lines: seq<Line>, more: seq<Line>, path: Path, l: Line)
    requires Valid(lines) && SectionOfOne(more, path, l)
    ensures Valid(lines + more) <==>
            Room(lines, Opens(path)) && Room(lines, Sets(path + [l.key] + l.below, |path|))
  {
    AppendedApart(lines, more, path, l);
    AppendedContinued(lines, more, path, l);
  }

  lemma AppendedReads(lines: seq<Line>, more: seq<Line>, path: Path, l: Line, q: Path, v: string)
    requires SectionOfOne(more, path, l)
    ensures Reads(lines + more, q, v) <==> Reads(lines, q, v) || (q == path + [l.key] + l.below && v == l.value)
  {
    var now := lines + more;
    AppendedFacts(lines, more, path, l, |now| - 1);
    assert now[|now| - 1] == l;
    if i :| BindsAt(lines, i, q) && lines[i].value == v {
      AppendedFacts(lines, more, path, l, i);
      assert BindsAt(now, i, q) && now[i] == lines[i];
    }
    if i :| BindsAt(now, i, q) && now[i].value == v {
      AppendedFacts(lines, more, path, l, i);
      assert i < |lines| ==> BindsAt(lines, i, q) && now[i] == lines[i];
    }
    assert q == path + [l.key] + l.below ==> BindsAt(now, |now| - 1, q);
  }
}
