// The report of dependency versions that differ from the internal package's declared
// version: one record per dependency, grouped by the package.json that holds it, and
// the text the report prints as.
module UnpinnedDependencies {
  import opened Paths

  /** `UnpinnedDependency`: the dependency, the version found and the version wanted. */
  datatype UnpinnedDependency = UnpinnedDependency(name: string, actual: string, expected: string)

  /** `UnpinnedPackageDependencies`: a package.json path and its unpinned dependencies. */
  datatype UnpinnedPackageDependencies = UnpinnedPackage(path: Path, dependencies: seq<UnpinnedDependency>)

  /** `UnpinnedMonorepoDependencies`. */
  datatype UnpinnedMonorepoDependencies = UnpinnedMonorepo(packages: seq<UnpinnedPackageDependencies>)

  // ---------------------------------------------------------------------------
  // Lines of text.

  /** `writeln!` of each line in turn: every line is followed by a newline. */
  function JoinLines(lines: seq<string>): string {
    if lines == [] then "" else lines[0] + "\n" + JoinLines(lines[1..])
  }

  lemma {:induction false} JoinLinesAppend(a: seq<string>, b: seq<string>)
    ensures JoinLines(a + b) == JoinLines(a) + JoinLines(b)
  {
    if a != [] {
      assert (a + b)[0] == a[0];
      assert (a + b)[1..] == a[1..] + b;
      JoinLinesAppend(a[1..], b);
    } else {
      assert a + b == b;
    }
  }

  lemma JoinLinesOne(line: string)
    ensures JoinLines([line]) == line + "\n"
  {
    assert [line][1..] == [];
  }

  lemma JoinLineStep(lines: seq<string>, k: nat)
    requires k < |lines|
    ensures JoinLines(lines[..k + 1]) == JoinLines(lines[..k]) + lines[k] + "\n"
  {
    assert lines[..k + 1] == lines[..k] + [lines[k]];
    JoinLinesAppend(lines[..k], [lines[k]]);
    JoinLinesOne(lines[k]);
  }

  /** The first position of `c` in `s`. */
  function IndexOf(s: string, c: char): (i: nat)
    requires c in s
    ensures i < |s| && s[i] == c && c !in s[..i]
  {
    if s[0] == c then 0
    else
      assert s[1..][..IndexOf(s[1..], c)] == s[1..IndexOf(s[1..], c) + 1];
      IndexOf(s[1..], c) + 1
  }

  /** The pieces of `s` between occurrences of `c` (`str::split`). */
  function Split(s: string, c: char): (r: seq<string>)
    ensures |r| >= 1
    decreases |s|
  {
    if c !in s then [s]
    else
      var i := IndexOf(s, c);
      [s[..i]] + Split(s[i + 1..], c)
  }

  /** No occurrence of `c` comes before the one `IndexOf` finds. */
  lemma {:induction false} IndexOfFirst(s: string, c: char, j: nat)
    requires j < |s| && s[j] == c
    ensures IndexOf(s, c) <= j
  {
    if s[0] != c {
      IndexOfFirst(s[1..], c, j - 1);
    }
  }

  /** Splitting at the first separator of `a + [c] + b` gives `a` and the pieces of `b`. */
  lemma SplitAtFirst(a: string, c: char, b: string)
    requires c !in a
    ensures Split(a + [c] + b, c) == [a] + Split(b, c)
  {
    var s := a + [c] + b;
    assert s[|a|] == c;
    IndexOfFirst(s, c, |a|);
    var i := IndexOf(s, c);
    assert forall k :: 0 <= k < |a| ==> s[k] == a[k] && s[k] != c;
    assert i == |a|;
    assert s[..i] == a;
    assert s[i + 1..] == b;
  }

  /** Printed lines read back as the lines printed, followed by the empty remainder
      after the last newline. */
  lemma {:induction false} SplitJoinLines(lines: seq<string>)
    requires forall i :: 0 <= i < |lines| ==> '\n' !in lines[i]
    ensures Split(JoinLines(lines), '\n') == lines + [""]
  {
    if lines == [] {
      assert '\n' !in "";
    } else {
      SplitJoinLines(lines[1..]);
      assert lines[0] + "\n" + JoinLines(lines[1..]) == lines[0] + ['\n'] + JoinLines(lines[1..]);
      SplitAtFirst(lines[0], '\n', JoinLines(lines[1..]));
      assert lines == [lines[0]] + lines[1..];
    }
  }

  // ---------------------------------------------------------------------------
  // Display.

  /** `Display for UnpinnedDependency`. */
  function DependencyLine(u: UnpinnedDependency): string {
    "dependency: " + u.name + "\texpected: " + u.expected + "\tgot: " + u.actual
  }

  /** A dependency line holds its three fields, tab-separated, in this order. */
  lemma DependencyLineFields(u: UnpinnedDependency)
    requires '\t' !in u.name && '\t' !in u.expected && '\t' !in u.actual
    ensures Split(DependencyLine(u), '\t') == ["dependency: " + u.name, "expected: " + u.expected, "got: " + u.actual]
  {
    var a := "dependency: " + u.name;
    var b := "expected: " + u.expected;
    var c := "got: " + u.actual;
    NotInAppend("dependency: ", u.name, '\t');
    NotInAppend("expected: ", u.expected, '\t');
    NotInAppend("got: ", u.actual, '\t');
    assert DependencyLine(u) == a + ['\t'] + (b + ['\t'] + c);
    SplitAtFirst(a, '\t', b + ['\t'] + c);
    SplitAtFirst(b, '\t', c);
    assert Split(c, '\t') == [c];
  }

  /** A character in neither part is not in their concatenation. */
  lemma NotInAppend(x: string, y: string, ch: char)
    requires ch !in x && ch !in y
    ensures ch !in x + y
  {
  }

  /** The header line of a package block: the package.json path as `{:?}` shows it. */
  function Header(path: Path): string {
    HeaderPrefix + Debug(path)
  }

  const HeaderPrefix: string := "File contains unpinned dependency versions: "

  /** The lines of a package block: the header, then one indented line per dependency,
      in order. */
  function PackageLines(p: UnpinnedPackageDependencies): (r: seq<string>)
    ensures |r| == 1 + |p.dependencies| && r[0] == Header(p.path)
    ensures forall i :: 0 <= i < |p.dependencies| ==> r[i + 1] == "\t" + DependencyLine(p.dependencies[i])
  {
    [Header(p.path)] + seq(|p.dependencies|, i requires 0 <= i < |p.dependencies| => "\t" + DependencyLine(p.dependencies[i]))
  }

  /** `Display for UnpinnedPackageDependencies`: the header, then each dependency. */
  method DisplayPackage(p: UnpinnedPackageDependencies) returns (s: string)
    ensures s == JoinLines(PackageLines(p))
  {
    ghost var lines := PackageLines(p);
    s := Header(p.path) + "\n";
    JoinLinesOne(lines[0]);
    assert lines[..1] == [lines[0]];
    var i := 0;
    while i < |p.dependencies|
      invariant 0 <= i <= |p.dependencies|
      invariant s == JoinLines(lines[..i + 1])
    {
      var line := "\t" + DependencyLine(p.dependencies[i]);
      assert line == lines[i + 1];
      JoinLineStep(lines, i + 1);
      s := s + line + "\n";
      i := i + 1;
    }
    assert lines[..i + 1] == lines;
  }

  /** All package blocks' lines, in order. */
  function MonorepoLines(packages: seq<UnpinnedPackageDependencies>): seq<string> {
    if packages == [] then []
    else MonorepoLines(packages[..|packages| - 1]) + PackageLines(packages[|packages| - 1])
  }

  /** `Display for UnpinnedMonorepoDependencies`: the blocks one after the other. */
  method DisplayMonorepo(u: UnpinnedMonorepoDependencies) returns (s: string)
    ensures s == JoinLines(MonorepoLines(u.packages))
  {
    s := "";
    var i := 0;
    while i < |u.packages|
      invariant 0 <= i <= |u.packages|
      invariant s == JoinLines(MonorepoLines(u.packages[..i]))
    {
      var block := DisplayPackage(u.packages[i]);
      assert u.packages[..i + 1][..i] == u.packages[..i];
      JoinLinesAppend(MonorepoLines(u.packages[..i]), PackageLines(u.packages[i]));
      s := s + block;
      i := i + 1;
    }
    assert u.packages[..i] == u.packages;
  }

  /** `escape_debug` never produces a newline: a newline is shown as "\\n". */
  lemma EscapeCharNoNewline(c: char)
    ensures '\n' !in EscapeChar(c)
  {
    if c != '\n' && NonPrintableLatin1(c) && !(c in "\0\t\r\\\"'") {
      var h := LowerHex(c as int);
      assert '\n' !in LowerHexDigits;
      assert EscapeChar(c) == "\\u{" + h + "}";
    }
  }

  /** `{:?}` of a path's text never holds a newline. */
  lemma {:induction false} EscapeDebugNoNewline(s: string)
    ensures '\n' !in EscapeDebug(s)
  {
    if s != [] {
      EscapeCharNoNewline(s[0]);
      EscapeDebugNoNewline(s[1..]);
    }
  }

  lemma EscapeByteNoNewline(b: byte)
    ensures '\n' !in EscapeByte(b)
  {
    var n := b as int;
    var hi := UpperHexDigits[n / 16];
    var lo := UpperHexDigits[n % 16];
    assert hi in UpperHexDigits && lo in UpperHexDigits;
    assert EscapeByte(b) == "\\x" + [hi, lo];
  }

  lemma {:induction false} DebugBytesNoNewline(bytes: seq<byte>)
    ensures '\n' !in DebugBytes(bytes)
    decreases |bytes|
  {
    if bytes != [] {
      var n := SequenceLength(bytes);
      if n == 0 {
        EscapeByteNoNewline(bytes[0]);
        DebugBytesNoNewline(bytes[1..]);
      } else {
        EscapeCharNoNewline(DecodeSequence(bytes));
        DebugBytesNoNewline(bytes[n..]);
      }
    }
  }

  lemma DebugComponentNoNewline(c: Component)
    ensures '\n' !in DebugComponent(c)
  {
    if c.Utf8? {
      EscapeDebugNoNewline(c.text);
    } else {
      DebugBytesNoNewline(c.bytes);
    }
  }

  lemma {:induction false} DebugComponentsNoNewline(p: Path)
    ensures '\n' !in DebugComponents(p)
  {
    if p != [] {
      DebugComponentNoNewline(p[0]);
      DebugComponentsNoNewline(p[1..]);
    }
  }

  lemma HeaderPrefixNoNewline()
    ensures '\n' !in HeaderPrefix
  {
    assert HeaderPrefix == "File contains " + "unpinned " + "dependency " + "versions: ";
  }

  lemma HeaderNoNewline(path: Path)
    ensures '\n' !in Header(path)
  {
    DebugComponentsNoNewline(path);
    HeaderPrefixNoNewline();
    var d := DebugComponents(path);
    assert Header(path) == HeaderPrefix + ("\"" + d + "\"");
  }

  lemma DependencyLineNoNewline(u: UnpinnedDependency)
    requires '\n' !in u.name && '\n' !in u.expected && '\n' !in u.actual
    ensures '\n' !in "\t" + DependencyLine(u)
  {
  }

  /** The fields of the report hold no newline. */
  predicate SingleLineFields(ps: seq<UnpinnedPackageDependencies>) {
    forall i, j :: 0 <= i < |ps| && 0 <= j < |ps[i].dependencies| ==>
      var u := ps[i].dependencies[j];
      '\n' !in u.name && '\n' !in u.expected && '\n' !in u.actual
  }

  /** Reading the printed report back line by line gives, for each package in turn, its
      header and its dependency lines. */
  lemma {:induction false} MonorepoLinesRead(ps: seq<UnpinnedPackageDependencies>)
    requires SingleLineFields(ps)
    ensures Split(JoinLines(MonorepoLines(ps)), '\n') == MonorepoLines(ps) + [""]
  {
    var lines := MonorepoLines(ps);
    forall i | 0 <= i < |lines|
      ensures '\n' !in lines[i]
    {
      LineOfBlocks(ps, i);
    }
    SplitJoinLines(lines);
  }

  lemma {:induction false} LineOfBlocks(ps: seq<UnpinnedPackageDependencies>, i: int)
    requires SingleLineFields(ps) && 0 <= i < |MonorepoLines(ps)|
    ensures '\n' !in MonorepoLines(ps)[i]
    decreases |ps|
  {
    var init := ps[..|ps| - 1];
    var last := ps[|ps| - 1];
    assert SingleLineFields(init) by {
      forall a, b | 0 <= a < |init| && 0 <= b < |init[a].dependencies|
        ensures '\n' !in init[a].dependencies[b].name
        ensures '\n' !in init[a].dependencies[b].expected && '\n' !in init[a].dependencies[b].actual
      {
        assert init[a] == ps[a];
      }
    }
    if i < |MonorepoLines(init)| {
      LineOfBlocks(init, i);
    } else {
      var k := i - |MonorepoLines(init)|;
      if k == 0 {
        HeaderNoNewline(last.path);
      } else {
        DependencyLineNoNewline(last.dependencies[k - 1]);
      }
    }
  }

  // ---------------------------------------------------------------------------
  // Collecting the report.

  /** `FromIterator`: packages with no unpinned dependency are dropped, the rest kept in
      order. */
  function FromIterator(items: seq<(Path, seq<UnpinnedDependency>)>): (r: UnpinnedMonorepoDependencies)
    ensures forall i :: 0 <= i < |r.packages| ==> r.packages[i].dependencies != []
    ensures |r.packages| <= |items|
  {
    if items == [] then UnpinnedMonorepo([])
    else
      var rest := FromIterator(items[..|items| - 1]).packages;
      var last := items[|items| - 1];
      UnpinnedMonorepo(if last.1 == [] then rest else rest + [UnpinnedPackage(last.0, last.1)])
  }

  /** Collecting two runs of items one after the other collects each and concatenates:
      the order of the kept packages is the order of the items. */
  lemma {:induction false} FromIteratorAppend(a: seq<(Path, seq<UnpinnedDependency>)>, b: seq<(Path, seq<UnpinnedDependency>)>)
    ensures FromIterator(a + b).packages == FromIterator(a).packages + FromIterator(b).packages
    decreases |b|
  {
    if b == [] {
      assert a + b == a;
    } else {
      assert (a + b)[..|a + b| - 1] == a + b[..|b| - 1];
      FromIteratorAppend(a, b[..|b| - 1]);
    }
  }

  /** A package is kept exactly when it has an unpinned dependency. */
  lemma {:induction false} FromIteratorKeeps(items: seq<(Path, seq<UnpinnedDependency>)>, p: UnpinnedPackageDependencies)
    ensures p in FromIterator(items).packages <==> (p.path, p.dependencies) in items && p.dependencies != []
    decreases |items|
  {
    if items != [] {
      var init := items[..|items| - 1];
      FromIteratorKeeps(init, p);
      assert items == init + [items[|items| - 1]];
    }
  }

  /** `is_empty`. */
  function IsEmpty(u: UnpinnedMonorepoDependencies): (r: bool)
    ensures r <==> |u.packages| == 0
  {
    u.packages == []
  }

  /** The collected report is empty exactly when no package had an unpinned dependency. */
  lemma FromIteratorEmpty(items: seq<(Path, seq<UnpinnedDependency>)>)
    ensures IsEmpty(FromIterator(items)) <==> forall i :: 0 <= i < |items| ==> items[i].1 == []
  {
    if !IsEmpty(FromIterator(items)) {
      var p := FromIterator(items).packages[0];
      FromIteratorKeeps(items, p);
    } else {
      forall i | 0 <= i < |items|
        ensures items[i].1 == []
      {
        if items[i].1 != [] {
          FromIteratorKeeps(items, UnpinnedPackage(items[i].0, items[i].1));
        }
      }
    }
  }

  // ---------------------------------------------------------------------------
  // The rendering the unit test fixes.

  /** Text holding no character `{:?}` escapes. */
  predicate Plain(s: string) {
    forall i :: 0 <= i < |s| ==> ShownAsItself(s[i])
  }

  /** `{:?}` never shortens a text. */
  lemma {:induction false} EscapeDebugLength(s: string)
    ensures |EscapeDebug(s)| >= |s|
  {
    if s != [] {
      EscapeCharItself(s[0]);
      EscapeDebugLength(s[1..]);
    }
  }

  /** A text shows under `{:?}` as itself exactly when it is plain. */
  lemma {:induction false} EscapeDebugPlain(s: string)
    ensures EscapeDebug(s) == s <==> Plain(s)
  {
    if s != [] {
      EscapeCharItself(s[0]);
      EscapeDebugPlain(s[1..]);
      assert s == [s[0]] + s[1..];
      if ShownAsItself(s[0]) {
        assert EscapeDebug(s) == [s[0]] + EscapeDebug(s[1..]);
        assert Plain(s) <==> Plain(s[1..]) by {
          forall i | 0 <= i < |s[1..]|
            ensures s[1..][i] == s[i + 1]
          {
          }
        }
      } else {
        EscapeDebugLength(s[1..]);
        assert |EscapeDebug(s)| > |s|;
      }
    }
  }

  lemma PlainAppend(a: string, b: string)
    requires Plain(a) && Plain(b)
    ensures Plain(a + b)
  {
    assert forall i :: 0 <= i < |a + b| ==> (a + b)[i] == if i < |a| then a[i] else b[i - |a|];
  }

  /** The unit test's path needs no escaping. */
  lemma ExamplePathPlain()
    ensures Plain("packages/a/package.json")
  {
    assert Plain("packages") && Plain("/a/") && Plain("package.json");
    PlainAppend("packages", "/a/");
    PlainAppend("packages/a/", "package.json");
    assert "packages/a/" + "package.json" == "packages/a/package.json";
  }

  lemma PlainHeader(path: Path)
    requires IsUtf8(path) && Plain(Render(path))
    ensures Header(path) == HeaderPrefix + "\"" + Render(path) + "\""
  {
    DebugOfUtf8(path);
    EscapeDebugPlain(Render(path));
  }

  lemma ExampleLineOne()
    ensures "\t" + DependencyLine(UnpinnedDependency("one", "0.0.0", "2.0.0")) == "\tdependency: one\texpected: 2.0.0\tgot: 0.0.0"
  {
  }

  lemma ExampleLineTwo()
    ensures "\t" + DependencyLine(UnpinnedDependency("two", "0.0.0", "2.0.0")) == "\tdependency: two\texpected: 2.0.0\tgot: 0.0.0"
  {
  }

  lemma ExampleLines(p: UnpinnedPackageDependencies)
    requires IsUtf8(p.path) && Plain(Render(p.path))
    requires p.dependencies == [UnpinnedDependency("one", "0.0.0", "2.0.0"), UnpinnedDependency("two", "0.0.0", "2.0.0")]
    ensures MonorepoLines([p]) == [HeaderPrefix + "\"" + Render(p.path) + "\"",
                                   "\tdependency: one\texpected: 2.0.0\tgot: 0.0.0",
                                   "\tdependency: two\texpected: 2.0.0\tgot: 0.0.0"]
  {
    PlainHeader(p.path);
    ExampleLineOne();
    ExampleLineTwo();
    assert [p][..0] == [];
    assert MonorepoLines([p]) == PackageLines(p);
  }

  lemma JoinThree(a: string, b: string, c: string)
    ensures JoinLines([a, b, c]) == a + "\n" + b + "\n" + c + "\n"
  {
    assert [a, b, c] == [a, b] + [c];
    assert [a, b] == [a] + [b];
    JoinLinesAppend([a, b], [c]);
    JoinLinesAppend([a], [b]);
    JoinLinesOne(a);
    JoinLinesOne(b);
    JoinLinesOne(c);
  }

  /** The unit test's report renders as the text it expects, for any package.json path
      whose text needs no escaping, as "packages/a/package.json" does. */
  lemma DisplayExample(path: Path)
    requires IsUtf8(path) && Plain(Render(path))
    ensures var one := UnpinnedDependency("one", "0.0.0", "2.0.0");
            var two := UnpinnedDependency("two", "0.0.0", "2.0.0");
            JoinLines(MonorepoLines([UnpinnedPackage(path, [one, two])]))
              == "File contains unpinned dependency versions: " + "\"" + Render(path) + "\"" + "\n"
                 + "\tdependency: one\texpected: 2.0.0\tgot: 0.0.0" + "\n"
                 + "\tdependency: two\texpected: 2.0.0\tgot: 0.0.0" + "\n"
  {
    var p := UnpinnedPackage(path, [UnpinnedDependency("one", "0.0.0", "2.0.0"), UnpinnedDependency("two", "0.0.0", "2.0.0")]);
    ExampleLines(p);
    var lines := MonorepoLines([p]);
    JoinThree(lines[0], lines[1], lines[2]);
    assert lines == [lines[0], lines[1], lines[2]];
  }
}
