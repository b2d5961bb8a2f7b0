/** Synthesis of the stand-in module's source text (`src/on-load.ts`). */
module OnLoad {
  import opened Wrappers
  import opened Text
  import opened Info

  /** `createCjsContents`: the single statement of a CommonJS stand-in. It
      assigns exactly the variable name, and it is one line when the name is. */
  function CjsContents(varName: string): (r: string)
    ensures |r| == |varName| + 18 && r[..17] == "module.exports = " && r[|r| - 1] == ';'
    ensures r[17..|r| - 1] == varName
    ensures NoNewline(varName) ==> NoNewline(r)
  {
    var r := "module.exports = " + varName + ";";
    assert NoNewline(varName) ==> NoNewline(r) by {
      if NoNewline(varName) {
        NoNewlineConcat("module.exports = ", varName);
        NoNewlineConcat("module.exports = " + varName, ";");
      }
    }
    r
  }

  /** The first line of every ES-module stand-in. It exports exactly the
      variable name, and it is one line when the name is. */
  function DefaultExportLine(varName: string): (r: string)
    ensures |r| == |varName| + 16 && r[..15] == "export default " && r[|r| - 1] == ';'
    ensures r[15..|r| - 1] == varName
    ensures NoNewline(varName) ==> NoNewline(r)
  {
    var r := "export default " + varName + ";";
    assert NoNewline(varName) ==> NoNewline(r) by {
      if NoNewline(varName) {
        NoNewlineConcat("export default ", varName);
        NoNewlineConcat("export default " + varName, ";");
      }
    }
    r
  }

  /** `convertNamedExport`: the line that binds the property `exportName` of
      the global to a constant of the same name and re-exports it under that
      name, the two statements separated by one space. It is one line when
      both names are. */
  function NamedExportLine(varName: string, exportName: string): (r: string)
    ensures "const " + exportName + " = " + varName + "." + exportName + ";" <= r
    ensures |r| >= |exportName| + 12 && r[|r| - (|exportName| + 12)..] == "export { " + exportName + " };"
    ensures |r| == 3 * |exportName| + |varName| + 24 && r[2 * |exportName| + |varName| + 11] == ' '
    ensures NoNewline(varName) && NoNewline(exportName) ==> NoNewline(r)
  {
    var n := exportName;
    var binding := "const " + n + " = " + varName + "." + n + ";";
    var reexport := "export { " + n + " };";
    var r := binding + " " + reexport;
    assert r == "const " + n + " = " + varName + "." + n + "; export { " + n + " };";
    assert r[|r| - (|n| + 12)..] == reexport;
    assert NoNewline(varName) && NoNewline(n) ==> NoNewline(r) by {
      if NoNewline(varName) && NoNewline(n) {
        NoNewlineConcat("const ", n);
        NoNewlineConcat("const " + n, " = ");
        NoNewlineConcat("const " + n + " = ", varName);
        NoNewlineConcat("const " + n + " = " + varName, ".");
        NoNewlineConcat("const " + n + " = " + varName + ".", n);
        NoNewlineConcat("const " + n + " = " + varName + "." + n, ";");
        NoNewlineConcat("export { ", n);
        NoNewlineConcat("export { " + n, " };");
        NoNewlineConcat(binding, " ");
        NoNewlineConcat(binding + " ", reexport);
      }
    }
    r
  }

  /** No element occurs twice. */
  predicate Distinct(s: seq<string>) {
    forall i, j :: 0 <= i < j < |s| ==> s[i] != s[j]
  }

  /** The position of the first occurrence of `x` in `s`. */
  function FirstIndex(s: seq<string>, x: string): (i: nat)
    requires x in s
    ensures i < |s| && s[i] == x && x !in s[..i]
  {
    if s[0] == x then 0
    else
      assert x in s[1..] by {
        var k :| 0 <= k < |s| && s[k] == x;
        assert s[1..][k - 1] == x;
      }
      var j := FirstIndex(s[1..], x);
      assert s[..j + 1] == [s[0]] + s[1..][..j];
      1 + j
  }

  /** An index holding `x` with no `x` before it is the first index of `x`. */
  lemma FirstIndexIs(s: seq<string>, x: string, i: nat)
    requires i < |s| && s[i] == x && x !in s[..i]
    ensures FirstIndex(s, x) == i
  {
    var j := FirstIndex(s, x);
    forall k | 0 <= k < i ensures s[k] != x {
      assert s[..i][k] == s[k];
    }
    forall k | 0 <= k < j ensures s[k] != x {
      assert s[..j][k] == s[k];
    }
  }

  /** Appending an element moves no first occurrence, and gives a new
      element its first occurrence at the end. */
  lemma FirstIndexAppend(p: seq<string>, x: string)
    ensures forall y :: y in p ==> FirstIndex(p + [x], y) == FirstIndex(p, y)
    ensures x !in p ==> FirstIndex(p + [x], x) == |p|
  {
    forall y | y in p
      ensures FirstIndex(p + [x], y) == FirstIndex(p, y)
    {
      var i := FirstIndex(p, y);
      assert (p + [x])[..i] == p[..i];
      FirstIndexIs(p + [x], y, i);
    }
    if x !in p {
      assert (p + [x])[..|p|] == p;
      FirstIndexIs(p + [x], x, |p|);
    }
  }

  /** The elements of `s` in the order of their first occurrence, as
      `[...new Set(s)]` lists them: a `Set` keeps insertion order and
      ignores an element it already holds. */
  function Unique(s: seq<string>): (r: seq<string>)
    ensures Distinct(r)
    ensures forall x :: x in r <==> x in s
    ensures forall i, j :: 0 <= i < j < |r| ==> FirstIndex(s, r[i]) < FirstIndex(s, r[j])
    decreases |s|
  {
    if |s| == 0 then []
    else
      var p, x := s[..|s| - 1], s[|s| - 1];
      assert s == p + [x];
      FirstIndexAppend(p, x);
      if x in p then Unique(p) else Unique(p) + [x]
  }

  /** `r` lists only elements of `s`, ordered by their first occurrence in `s`. */
  ghost predicate OrderedByFirstOccurrence(s: seq<string>, r: seq<string>) {
    && (forall i :: 0 <= i < |r| ==> r[i] in s)
    && (forall i, j :: 0 <= i < j < |r| ==> FirstIndex(s, r[i]) < FirstIndex(s, r[j]))
  }

  /** The first entry of an ordered list has the earliest first occurrence. */
  lemma OrderedHeadIsEarliest(s: seq<string>, a: seq<string>, x: string)
    requires OrderedByFirstOccurrence(s, a) && |a| > 0 && x in a
    ensures FirstIndex(s, a[0]) <= FirstIndex(s, x)
  {
    var k :| 0 <= k < |a| && a[k] == x;
    if k > 0 {
      assert FirstIndex(s, a[0]) < FirstIndex(s, a[k]);
    }
  }

  /** An ordered list without its first entry is ordered, and holds every
      other element of the list. */
  lemma OrderedTail(s: seq<string>, a: seq<string>)
    requires OrderedByFirstOccurrence(s, a) && |a| > 0
    ensures OrderedByFirstOccurrence(s, a[1..])
    ensures forall x :: x in a[1..] <==> x in a && x != a[0]
  {
    forall i, j | 0 <= i < j < |a[1..]|
      ensures FirstIndex(s, a[1..][i]) < FirstIndex(s, a[1..][j])
    {
      assert a[1..][i] == a[i + 1] && a[1..][j] == a[j + 1];
    }
    forall x | x in a[1..] ensures x != a[0] {
      var k :| 0 <= k < |a[1..]| && a[1..][k] == x;
      assert FirstIndex(s, a[0]) < FirstIndex(s, a[k + 1]);
    }
    assert a == [a[0]] + a[1..];
  }

  /** An ordered list has no duplicates: distinct positions have distinct
      first occurrences. */
  lemma OrderedIsDistinct(s: seq<string>, a: seq<string>)
    requires OrderedByFirstOccurrence(s, a)
    ensures Distinct(a)
  {
  }

  /** Two lists with the same elements, both ordered by first occurrence in
      `s`, are equal. */
  lemma {:induction false} OrderedByFirstOccurrenceUnique(s: seq<string>, a: seq<string>, b: seq<string>)
    requires OrderedByFirstOccurrence(s, a) && OrderedByFirstOccurrence(s, b)
    requires forall x :: x in a <==> x in b
    ensures a == b
    decreases |a|
  {
    OrderedIsDistinct(s, b);
    if |a| > 0 {
      assert a[0] in b && |b| > 0;
      assert b[0] in a;
      OrderedHeadIsEarliest(s, a, b[0]);
      OrderedHeadIsEarliest(s, b, a[0]);
      assert a[0] == b[0] by {
        assert s[FirstIndex(s, a[0])] == a[0];
        assert s[FirstIndex(s, b[0])] == b[0];
      }
      OrderedTail(s, a);
      OrderedTail(s, b);
      OrderedByFirstOccurrenceUnique(s, a[1..], b[1..]);
      assert a == [a[0]] + a[1..] && b == [b[0]] + b[1..];
    } else {
      assert a == [];
      DistinctCount(b);
      assert Elements(b) == {};
    }
  }

  /** The contract of `Unique` determines its result: any list of exactly
      the elements of `s`, in first-occurrence order, is `Unique(s)`. */
  lemma UniqueIsDetermined(s: seq<string>, r: seq<string>)
    requires forall x :: x in r <==> x in s
    requires OrderedByFirstOccurrence(s, r)
    ensures r == Unique(s)
  {
    OrderedByFirstOccurrenceUnique(s, r, Unique(s));
  }

  /** A list without duplicates passes through deduplication unchanged. */
  lemma UniqueOfDistinct(s: seq<string>)
    requires Distinct(s)
    ensures Unique(s) == s
  {
    forall i | 0 <= i < |s|
      ensures FirstIndex(s, s[i]) == i
    {
      assert s[i] !in s[..i] by {
        forall k | 0 <= k < i ensures s[..i][k] != s[i] {
          assert s[..i][k] == s[k];
        }
      }
      FirstIndexIs(s, s[i], i);
    }
    UniqueIsDetermined(s, s);
  }

  /** Deduplication is idempotent. */
  lemma UniqueIdempotent(s: seq<string>)
    ensures Unique(Unique(s)) == Unique(s)
  {
    UniqueOfDistinct(Unique(s));
  }

  /** Appending an element that already occurs leaves the deduplication unchanged. */
  lemma UniqueAppendPresent(s: seq<string>, x: string)
    requires x in s
    ensures Unique(s + [x]) == Unique(s)
  {
    assert (s + [x])[..|s|] == s;
  }

  /** The elements of a list, as a set. */
  function Elements(s: seq<string>): set<string> {
    set x | x in s
  }

  /** A list without duplicates has as many entries as distinct elements. */
  lemma {:induction false} DistinctCount(s: seq<string>)
    requires Distinct(s)
    ensures |Elements(s)| == |s|
    decreases |s|
  {
    if |s| > 0 {
      var t := s[1..];
      assert Distinct(t) by {
        forall i, j | 0 <= i < j < |t| ensures t[i] != t[j] {
          assert t[i] == s[i + 1] && t[j] == s[j + 1];
        }
      }
      DistinctCount(t);
      assert s[0] !in t by {
        forall k | 0 <= k < |t| ensures t[k] != s[0] {
          assert t[k] == s[k + 1];
        }
      }
      assert Elements(s) == Elements(t) + {s[0]};
    }
  }

  /** Deduplication keeps exactly one entry per distinct element. */
  lemma UniqueCount(s: seq<string>)
    ensures |Unique(s)| == |Elements(s)|
  {
    DistinctCount(Unique(s));
    assert Elements(Unique(s)) == Elements(s);
  }

  /** `[...new Set(s)]` computed the way the runtime does it: walk `s` once,
      remember what the set already holds, and append each element that is
      new. */
  method UniqueBySet(s: seq<string>) returns (r: seq<string>)
    ensures r == Unique(s)
  {
    var seen: set<string> := {};
    r := [];
    var i := 0;
    while i < |s|
      invariant 0 <= i <= |s|
      invariant r == Unique(s[..i])
      invariant forall x :: x in seen <==> x in s[..i]
    {
      var x := s[i];
      assert s[..i + 1][..i] == s[..i];
      assert s[..i + 1] == s[..i] + [x];
      if x !in seen {
        seen := seen + {x};
        r := r + [x];
      }
      i := i + 1;
    }
    assert s[..|s|] == s;
  }

  /** The names `[...new Set(namedExports)]` yields; `new Set(null)` is empty. */
  function ExportNames(namedExports: Option<seq<string>>): (r: seq<string>)
    ensures Distinct(r)
    ensures namedExports.None? ==> r == []
    ensures namedExports.Some? ==> forall x :: x in r <==> x in namedExports.value
    ensures namedExports.Some? ==> forall i, j :: 0 <= i < j < |r| ==>
      FirstIndex(namedExports.value, r[i]) < FirstIndex(namedExports.value, r[j])
  {
    match namedExports
    case None => []
    case Some(ns) => Unique(ns)
  }

  /** The lines of an ES-module stand-in before they are joined: the default
      export first, then one line per name in the order given. No line holds
      a newline when no name does. */
  function EsmLines(varName: string, names: seq<string>): (r: seq<string>)
    ensures |r| == 1 + |names| && r[0] == DefaultExportLine(varName)
    ensures forall i :: 0 <= i < |names| ==> r[1..][i] == NamedExportLine(varName, names[i])
    ensures NoNewline(varName) && (forall i :: 0 <= i < |names| ==> NoNewline(names[i])) ==>
      forall i :: 0 <= i < |r| ==> NoNewline(r[i])
  {
    [DefaultExportLine(varName)] + seq(|names|, i requires 0 <= i < |names| => NamedExportLine(varName, names[i]))
  }

  /** `createEsmContents`: the default-export line, then one line per
      distinct export name, joined by newlines. The default line is never
      left out, and it stands alone exactly when there is no name. */
  function EsmContents(varName: string, namedExports: Option<seq<string>>): (r: string)
    ensures DefaultExportLine(varName) <= r
    ensures r == DefaultExportLine(varName) <==> (namedExports.None? || namedExports.value == [])
  {
    var names := ExportNames(namedExports);
    assert namedExports.Some? && namedExports.value != [] ==> names != [] by {
      if namedExports.Some? && namedExports.value != [] {
        assert namedExports.value[0] in namedExports.value;
      }
    }
    Join(EsmLines(varName, names), "\n")
  }

  /** `createContents`: a CommonJS stand-in is the one assignment whatever
      the export names are; an ES-module stand-in starts with the default
      export. */
  function CreateContents(moduleType: ModuleType, varName: string, namedExports: Option<seq<string>>): (r: string)
    ensures moduleType == Cjs ==> r == "module.exports = " + varName + ";"
    ensures moduleType == Esm ==> "export default " + varName + ";" <= r
    ensures moduleType == Esm && (namedExports.None? || namedExports.value == []) ==> r == "export default " + varName + ";"
  {
    match moduleType
    case Esm => EsmContents(varName, namedExports)
    case Cjs => CjsContents(varName)
  }

  /** The export names are all that a CommonJS stand-in ignores. */
  lemma CjsIgnoresNamedExports(varName: string, a: Option<seq<string>>, b: Option<seq<string>>)
    ensures CreateContents(Cjs, varName, a) == CreateContents(Cjs, varName, b)
  {
  }

  /** No newline in a string built from newline-free pieces. */
  predicate NoNewline(s: string) {
    forall i :: 0 <= i < |s| ==> s[i] != '\n'
  }

  lemma NoNewlineConcat(a: string, b: string)
    requires NoNewline(a) && NoNewline(b)
    ensures NoNewline(a + b)
  {
    forall i | 0 <= i < |a + b| ensures (a + b)[i] != '\n' {
      if i >= |a| { assert (a + b)[i] == b[i - |a|]; }
    }
  }

  /** The deduplicated names are newline-free when the given ones are. */
  lemma ExportNamesNoNewline(namedExports: Option<seq<string>>)
    requires namedExports.Some? ==> forall i :: 0 <= i < |namedExports.value| ==> NoNewline(namedExports.value[i])
    ensures forall i :: 0 <= i < |ExportNames(namedExports)| ==> NoNewline(ExportNames(namedExports)[i])
  {
    var names := ExportNames(namedExports);
    forall i | 0 <= i < |names| ensures NoNewline(names[i]) {
      assert names[i] in names;
      var k :| 0 <= k < |namedExports.value| && namedExports.value[k] == names[i];
    }
  }

  /** With newline-free variable and export names, the ES-module stand-in
      read back line by line is the default line followed by one line per
      distinct name, in first-occurrence order: one more line than there are
      distinct names. */
  lemma EsmContentsLines(varName: string, namedExports: Option<seq<string>>)
    requires NoNewline(varName)
    requires namedExports.Some? ==> forall i :: 0 <= i < |namedExports.value| ==> NoNewline(namedExports.value[i])
    ensures var lines := Split(EsmContents(varName, namedExports), '\n');
      var names := ExportNames(namedExports);
      && |lines| == 1 + |names|
      && (namedExports.Some? ==> |lines| == 1 + |Elements(namedExports.value)|)
      && lines[0] == DefaultExportLine(varName)
      && forall i :: 0 <= i < |names| ==> lines[i + 1] == NamedExportLine(varName, names[i])
  {
    var names := ExportNames(namedExports);
    var lines := EsmLines(varName, names);
    ExportNamesNoNewline(namedExports);
    assert forall i :: 0 <= i < |lines| ==> '\n' !in lines[i] by {
      forall i | 0 <= i < |lines| ensures '\n' !in lines[i] {
        assert NoNewline(lines[i]);
      }
    }
    forall i | 0 <= i < |names| ensures lines[i + 1] == NamedExportLine(varName, names[i]) {
      assert lines[1..][i] == lines[i + 1];
    }
    SplitJoin(lines, '\n');
    if namedExports.Some? {
      UniqueCount(namedExports.value);
    }
  }

  /** Appending an export name that already occurs leaves the stand-in
      unchanged: deduplication absorbs repeats. */
  lemma EsmIgnoresRepeatedName(varName: string, names: seq<string>, n: string)
    requires n in names
    ensures EsmContents(varName, Some(names + [n])) == EsmContents(varName, Some(names))
  {
    UniqueAppendPresent(names, n);
  }

  /** The stand-in depends on the export names only through their
      deduplication: a list and its deduplication give the same text. */
  lemma EsmDependsOnDistinctNames(varName: string, names: seq<string>)
    ensures EsmContents(varName, Some(Unique(names))) == EsmContents(varName, Some(names))
  {
    UniqueIdempotent(names);
  }
}
