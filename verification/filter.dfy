/** The module-path filter `new RegExp("^(?:" + keys.join("|") + ")$")` of
    `src/index.ts`. No regular-expression engine is modelled: `Test` gives the
    meaning of the one fragment such a pattern falls into when its keys are
    literal enough, an anchored alternation whose alternatives are sequences
    of literal characters, escaped syntax characters and `.`; any other
    pattern text is reported as outside the fragment. */
module Filter {
  import opened Wrappers
  import opened Text

  /** One position of an alternative: a literal character, or `.`. */
  datatype Atom = Lit(c: char) | AnyChar

  /** The syntax characters of ECMAScript regular expressions
      (SyntaxCharacter, section 22.2.1 of ECMA-262). */
  const SyntaxChars: set<char> := {'^', '$', '\\', '.', '*', '+', '?', '(', ')', '[', ']', '{', '}', '|'}

  /** The line terminators, which `.` does not match in a JavaScript
      regular expression. The bundler evaluates the filter with Go's regular
      expressions, where `.` excludes only `\n`; no result proved here
      depends on the difference, because the escaped pattern holds no `.` and
      `a-b` is matched by `a.b` under either reading. */
  predicate IsLineTerminator(c: char) {
    c == '\n' || c == '\r' || c == '\U{2028}' || c == '\U{2029}'
  }

  predicate AtomMatches(a: Atom, c: char) {
    match a
    case Lit(l) => l == c
    case AnyChar => !IsLineTerminator(c)
  }

  /** An alternative matches a whole string position by position. */
  predicate AltMatches(alt: seq<Atom>, s: string) {
    |alt| == |s| && forall i :: 0 <= i < |s| ==> AtomMatches(alt[i], s[i])
  }

  /** Reads the body of the group into its alternatives: `|` closes the
      current alternative, `\` followed by a syntax character is that
      character taken literally, `.` matches any non-terminator, and any
      other syntax character leaves the fragment. */
  function ParseBody(s: string, cur: seq<Atom>, done: seq<seq<Atom>>): Option<seq<seq<Atom>>>
    decreases |s|
  {
    if |s| == 0 then Some(done + [cur])
    else if s[0] == '|' then ParseBody(s[1..], [], done + [cur])
    else if s[0] == '\\' then
      if |s| >= 2 && s[1] in SyntaxChars then ParseBody(s[2..], cur + [Lit(s[1])], done) else None
    else if s[0] == '.' then ParseBody(s[1..], cur + [AnyChar], done)
    else if s[0] in SyntaxChars then None
    else ParseBody(s[1..], cur + [Lit(s[0])], done)
  }

  const Open: string := "^(?:"
  const Close: string := ")$"

  /** The pattern text that anchors a body as one non-capturing group. */
  function Anchored(body: string): string {
    Open + body + Close
  }

  /** The alternatives of an anchored pattern in the fragment, or `None`. */
  function ParsePattern(src: string): Option<seq<seq<Atom>>> {
    if |src| >= |Open| + |Close| && src[..|Open|] == Open && src[|src| - |Close|..] == Close
    then ParseBody(src[|Open|..|src| - |Close|], [], [])
    else None
  }

  /** `new RegExp(src).test(path)` for a pattern in the fragment: some
      alternative matches the whole path. `None` for any other pattern. */
  function Test(src: string, path: string): Option<bool> {
    match ParsePattern(src)
    case None => None
    case Some(alts) => Some(exists i :: 0 <= i < |alts| && AltMatches(alts[i], path))
  }

  lemma ParseAnchored(body: string)
    ensures ParsePattern(Anchored(body)) == ParseBody(body, [], [])
  {
    var src := Anchored(body);
    assert src[..|Open|] == Open;
    assert src[|src| - |Close|..] == Close;
    assert src[|Open|..|src| - |Close|] == body;
  }

  /** The pattern exactly as `src/index.ts` builds it: keys joined unescaped.
      With no key it is the empty group; with plain keys it coincides with
      the pattern that escapes every key. */
  function AsWrittenPattern(keys: seq<string>): (r: string)
    ensures |keys| == 0 ==> r == "^(?:)$"
    ensures (forall i :: 0 <= i < |keys| ==> Plain(keys[i])) ==> r == EscapedPattern(keys)
  {
    assert (forall i :: 0 <= i < |keys| ==> Plain(keys[i])) ==> EscapeAll(keys) == keys by {
      if forall i :: 0 <= i < |keys| ==> Plain(keys[i]) {
        EscapeAllPlain(keys);
      }
    }
    Anchored(Join(keys, "|"))
  }

  /** A key is plain when it holds no syntax character. */
  predicate Plain(k: string) {
    forall i :: 0 <= i < |k| ==> k[i] !in SyntaxChars
  }

  /** A key with every syntax character preceded by `\`. */
  function Escape(k: string): string {
    if |k| == 0 then ""
    else (if k[0] in SyntaxChars then ['\\', k[0]] else [k[0]]) + Escape(k[1..])
  }

  /** Escaping leaves a plain key as it is. */
  lemma {:induction false} EscapePlain(k: string)
    requires Plain(k)
    ensures Escape(k) == k
    decreases |k|
  {
    if |k| > 0 {
      assert Plain(k[1..]) by {
        forall i | 0 <= i < |k[1..]| ensures k[1..][i] !in SyntaxChars {
          assert k[1..][i] == k[i + 1];
        }
      }
      EscapePlain(k[1..]);
      assert k == [k[0]] + k[1..];
    }
  }

  /** Escaping leaves a list of plain keys as it is. */
  lemma EscapeAllPlain(keys: seq<string>)
    requires forall i :: 0 <= i < |keys| ==> Plain(keys[i])
    ensures EscapeAll(keys) == keys
  {
    forall i | 0 <= i < |keys| ensures EscapeAll(keys)[i] == keys[i] {
      EscapePlain(keys[i]);
    }
  }

  function EscapeAll(keys: seq<string>): (r: seq<string>)
    ensures |r| == |keys|
    ensures forall i {:trigger r[i]} :: 0 <= i < |keys| ==> r[i] == Escape(keys[i])
  {
    if |keys| == 0 then [] else [Escape(keys[0])] + EscapeAll(keys[1..])
  }

  /** The pattern with every key escaped, so that each key is taken literally. */
  function EscapedPattern(keys: seq<string>): string {
    Anchored(Join(EscapeAll(keys), "|"))
  }

  /** The alternative that matches exactly the string `k`. */
  function Lits(k: string): (r: seq<Atom>)
    ensures |r| == |k|
    ensures forall i {:trigger r[i]} :: 0 <= i < |k| ==> r[i] == Lit(k[i])
  {
    if |k| == 0 then [] else [Lit(k[0])] + Lits(k[1..])
  }

  function LitsAll(keys: seq<string>): (r: seq<seq<Atom>>)
    ensures |r| == |keys|
    ensures forall i {:trigger r[i]} :: 0 <= i < |keys| ==> r[i] == Lits(keys[i])
  {
    if |keys| == 0 then [] else [Lits(keys[0])] + LitsAll(keys[1..])
  }

  /** One step of `ParseBody` on a plain character. */
  lemma ParsePlainStep(c: char, tail: string, cur: seq<Atom>, done: seq<seq<Atom>>)
    requires c !in SyntaxChars
    ensures ParseBody([c] + tail, cur, done) == ParseBody(tail, cur + [Lit(c)], done)
  {
    assert ([c] + tail)[1..] == tail;
  }

  /** One step of `ParseBody` on an escaped syntax character. */
  lemma ParseEscapeStep(c: char, tail: string, cur: seq<Atom>, done: seq<seq<Atom>>)
    requires c in SyntaxChars
    ensures ParseBody(['\\', c] + tail, cur, done) == ParseBody(tail, cur + [Lit(c)], done)
  {
    assert (['\\', c] + tail)[2..] == tail;
  }

  /** One step of `ParseBody` on `|`. */
  lemma ParseBarStep(tail: string, cur: seq<Atom>, done: seq<seq<Atom>>)
    ensures ParseBody("|" + tail, cur, done) == ParseBody(tail, [], done + [cur])
  {
    assert ("|" + tail)[1..] == tail;
  }

  /** The end of the body closes the last alternative. */
  lemma ParseEndStep(cur: seq<Atom>, done: seq<seq<Atom>>)
    ensures ParseBody("", cur, done) == Some(done + [cur])
  {
  }

  /** One step of `ParseBody` on `.`. */
  lemma ParseDotStep(tail: string, cur: seq<Atom>, done: seq<seq<Atom>>)
    ensures ParseBody("." + tail, cur, done) == ParseBody(tail, cur + [AnyChar], done)
  {
    assert ("." + tail)[1..] == tail;
  }

  /** An escaped key reads back as its own characters, taken literally. */
  lemma {:induction false} ParseEscaped(k: string, rest: string, cur: seq<Atom>, done: seq<seq<Atom>>)
    ensures ParseBody(Escape(k) + rest, cur, done) == ParseBody(rest, cur + Lits(k), done)
    decreases |k|
  {
    if |k| == 0 {
      assert Escape(k) + rest == rest;
      assert cur + Lits(k) == cur;
    } else {
      var tail := Escape(k[1..]) + rest;
      if k[0] in SyntaxChars {
        assert Escape(k) + rest == ['\\', k[0]] + tail;
        ParseEscapeStep(k[0], tail, cur, done);
      } else {
        assert Escape(k) + rest == [k[0]] + tail;
        ParsePlainStep(k[0], tail, cur, done);
      }
      ParseEscaped(k[1..], rest, cur + [Lit(k[0])], done);
      assert cur + [Lit(k[0])] + Lits(k[1..]) == cur + Lits(k);
    }
  }

  /** The escaped keys joined by `|` read back as one literal alternative per key. */
  lemma {:induction false} ParseEscapedJoin(keys: seq<string>, done: seq<seq<Atom>>)
    requires |keys| >= 1
    ensures ParseBody(Join(EscapeAll(keys), "|"), [], done) == Some(done + LitsAll(keys))
    decreases |keys|
  {
    var none: seq<Atom> := [];
    var e := EscapeAll(keys);
    var first := Lits(keys[0]);
    assert none + first == first;
    assert LitsAll(keys) == [first] + LitsAll(keys[1..]);
    if |keys| == 1 {
      calc {
        ParseBody(Join(e, "|"), none, done);
        { assert Join(e, "|") == Escape(keys[0]) + ""; }
        ParseBody(Escape(keys[0]) + "", none, done);
        { ParseEscaped(keys[0], "", none, done); }
        ParseBody("", first, done);
        { ParseEndStep(first, done); }
        Some(done + [first]);
        { assert LitsAll(keys) == [first]; }
        Some(done + LitsAll(keys));
      }
    } else {
      assert e[1..] == EscapeAll(keys[1..]);
      var j := Join(EscapeAll(keys[1..]), "|");
      calc {
        ParseBody(Join(e, "|"), none, done);
        { assert Join(e, "|") == Escape(keys[0]) + ("|" + j); }
        ParseBody(Escape(keys[0]) + ("|" + j), none, done);
        { ParseEscaped(keys[0], "|" + j, none, done); }
        ParseBody("|" + j, first, done);
        { ParseBarStep(j, first, done); }
        ParseBody(j, none, done + [first]);
        { ParseEscapedJoin(keys[1..], done + [first]); }
        Some(done + [first] + LitsAll(keys[1..]));
        { assert done + [first] + LitsAll(keys[1..]) == done + LitsAll(keys); }
        Some(done + LitsAll(keys));
      }
    }
  }

  /** A literal alternative matches its own key and nothing else. */
  lemma LitsMatchExactly(k: string, path: string)
    ensures AltMatches(Lits(k), path) <==> path == k
  {
  }

  /** The escaped filter accepts exactly the keys, and, when there is no key,
      the empty string that the empty group `^(?:)$` matches. Strict
      substrings and superstrings of a key are refused unless they are keys. */
  lemma EscapedFilterIsExactMembership(keys: seq<string>, path: string)
    ensures Test(EscapedPattern(keys), path) == Some(path in keys || (|keys| == 0 && path == ""))
  {
    ParseAnchored(Join(EscapeAll(keys), "|"));
    if |keys| == 0 {
      assert Join(EscapeAll(keys), "|") == "";
      var none: seq<Atom> := [];
      ParseEndStep(none, []);
      assert [] + [none] == [none];
      assert AltMatches([[]][0], path) <==> path == "";
    } else {
      ParseEscapedJoin(keys, []);
      var alts := LitsAll(keys);
      assert [] + alts == alts;
      forall i | 0 <= i < |keys| ensures AltMatches(alts[i], path) <==> path == keys[i] {
        LitsMatchExactly(keys[i], path);
      }
    }
  }

  /** With plain keys, escaping changes nothing: the pattern as written is
      the escaped one. */
  lemma AsWrittenIsEscapedWhenPlain(keys: seq<string>)
    requires forall i :: 0 <= i < |keys| ==> Plain(keys[i])
    ensures AsWrittenPattern(keys) == EscapedPattern(keys)
  {
    EscapeAllPlain(keys);
  }

  /** With keys free of syntax characters, the filter as written accepts a
      path exactly when it is one of the keys (or, with no key at all, the
      empty string). */
  lemma AsWrittenFilterIsExactMembership(keys: seq<string>, path: string)
    requires forall i :: 0 <= i < |keys| ==> Plain(keys[i])
    ensures Test(AsWrittenPattern(keys), path) == Some(path in keys || (|keys| == 0 && path == ""))
  {
    AsWrittenIsEscapedWhenPlain(keys);
    EscapedFilterIsExactMembership(keys, path);
  }

  /** With no key the pattern is `^(?:)$`, which accepts the empty string only. */
  lemma EmptyFilterAcceptsOnlyEmptyString(path: string)
    ensures AsWrittenPattern([]) == "^(?:)$"
    ensures Test(AsWrittenPattern([]), path) == Some(path == "")
  {
    AsWrittenFilterIsExactMembership([], path);
  }

  /** The order of the keys in the alternation does not change what the
      filter accepts. */
  lemma FilterIgnoresKeyOrder(keys1: seq<string>, keys2: seq<string>, path: string)
    requires forall k :: k in keys1 <==> k in keys2
    requires forall i :: 0 <= i < |keys1| ==> Plain(keys1[i])
    ensures Test(AsWrittenPattern(keys1), path) == Test(AsWrittenPattern(keys2), path)
  {
    assert forall i :: 0 <= i < |keys2| ==> Plain(keys2[i]) by {
      forall i | 0 <= i < |keys2| ensures Plain(keys2[i]) {
        assert keys2[i] in keys1;
      }
    }
    assert |keys1| == 0 <==> |keys2| == 0 by {
      assert |keys1| == 0 || keys1[0] in keys2;
      assert |keys2| == 0 || keys2[0] in keys1;
    }
    AsWrittenFilterIsExactMembership(keys1, path);
    AsWrittenFilterIsExactMembership(keys2, path);
  }

  /** The key `"p5"` of the repository's own build does not let `"p5x"` through. */
  lemma P5RefusesSuperstring()
    ensures Test(AsWrittenPattern(["p5"]), "p5") == Some(true)
    ensures Test(AsWrittenPattern(["p5"]), "p5x") == Some(false)
    ensures Test(AsWrittenPattern(["p5"]), "really/p5") == Some(false)
  {
    AsWrittenFilterIsExactMembership(["p5"], "p5");
    AsWrittenFilterIsExactMembership(["p5"], "p5x");
    AsWrittenFilterIsExactMembership(["p5"], "really/p5");
  }

  /** The pattern as written takes a `.` in a key as a wildcard: the key
      `"a.b"` lets the different path `"a-b"` through. */
  lemma AsWrittenDotOvermatches()
    ensures "a-b" !in ["a.b"]
    ensures Test(AsWrittenPattern(["a.b"]), "a-b") == Some(true)
  {
    var none: seq<Atom> := [];
    var alt := [Lit('a'), AnyChar, Lit('b')];
    assert AsWrittenPattern(["a.b"]) == Anchored("a.b");
    ParseAnchored("a.b");
    calc {
      ParseBody("a.b", none, []);
      { assert "a.b" == ['a'] + ".b"; ParsePlainStep('a', ".b", none, []); }
      ParseBody(".b", none + [Lit('a')], []);
      { assert none + [Lit('a')] == [Lit('a')]; }
      ParseBody("." + "b", [Lit('a')], []);
      { ParseDotStep("b", [Lit('a')], []); }
      ParseBody("b", [Lit('a')] + [AnyChar], []);
      { assert [Lit('a')] + [AnyChar] == [Lit('a'), AnyChar]; }
      ParseBody(['b'] + "", [Lit('a'), AnyChar], []);
      { ParsePlainStep('b', "", [Lit('a'), AnyChar], []); }
      ParseBody("", [Lit('a'), AnyChar] + [Lit('b')], []);
      { assert [Lit('a'), AnyChar] + [Lit('b')] == alt; ParseEndStep(alt, []); }
      Some([] + [alt]);
      { assert [] + [alt] == [alt]; }
      Some([alt]);
    }
    assert AltMatches([alt][0], "a-b");
  }

  /** The pattern as written splits a key holding `|` into two alternatives:
      the key `"x|y"` lets the path `"y"` through. */
  lemma AsWrittenBarSplitsKey()
    ensures "y" !in ["x|y"]
    ensures Test(AsWrittenPattern(["x|y"]), "y") == Some(true)
  {
    var none: seq<Atom> := [];
    assert AsWrittenPattern(["x|y"]) == Anchored("x|y");
    ParseAnchored("x|y");
    calc {
      ParseBody("x|y", none, []);
      { assert "x|y" == ['x'] + "|y"; ParsePlainStep('x', "|y", none, []); }
      ParseBody("|y", none + [Lit('x')], []);
      { assert none + [Lit('x')] == [Lit('x')]; }
      ParseBody("|" + "y", [Lit('x')], []);
      { ParseBarStep("y", [Lit('x')], []); }
      ParseBody("y", none, [] + [[Lit('x')]]);
      { assert [] + [[Lit('x')]] == [[Lit('x')]]; }
      ParseBody(['y'] + "", none, [[Lit('x')]]);
      { ParsePlainStep('y', "", none, [[Lit('x')]]); }
      ParseBody("", none + [Lit('y')], [[Lit('x')]]);
      { assert none + [Lit('y')] == [Lit('y')]; ParseEndStep([Lit('y')], [[Lit('x')]]); }
      Some([[Lit('x')]] + [[Lit('y')]]);
      { assert [[Lit('x')]] + [[Lit('y')]] == [[Lit('x')], [Lit('y')]]; }
      Some([[Lit('x')], [Lit('y')]]);
    }
    assert AltMatches([[Lit('x')], [Lit('y')]][1], "y");
  }
}
