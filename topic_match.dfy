/**
 * Topic matching of `bindingsResolver`: a binding is turned into a regular
 * expression by three chained replacements (`regexify`), anchored with `^…$`
 * and tested against the topic.
 *
 * The model keeps the replacements as they are written, parses the anchored
 * expression back into the three constructs it can contain, runs a direct
 * backtracking matcher over those constructs in place of the host's regular
 * expression engine, and proves that matcher equal to a declarative reading of
 * the grammar:
 *   `.`  is a literal dot (the replacement escapes it),
 *   `*`  becomes `.*`: any run of characters other than line terminators,
 *   `#`  becomes `[A-Z,a-z,0-9]*`: any run of letters, digits and commas
 *        (the class lists the comma twice, as a separator that is really a member),
 *   every other character stands for itself.
 * Other regular-expression metacharacters are not escaped by the source, so
 * bindings that contain them are outside the modelled alphabet (`WellFormed`).
 */
module TopicMatch {
  import opened Values

  /** The three constructs a well-formed binding compiles to. */
  datatype Token = Lit(c: char) | AnyRun | WordRun

  /** Characters that would keep their regular-expression meaning after `regexify`. */
  predicate IsMeta(c: char) {
    c in "\\^$+?()[]{}|"
  }

  predicate WellFormed(binding: string) {
    forall i :: 0 <= i < |binding| ==> !IsMeta(binding[i])
  }

  /** The characters `.` does not match in a regular expression without the `s` flag. */
  predicate IsLineTerminator(c: char) {
    c == '\n' || c == '\r' || c == '\U{2028}' || c == '\U{2029}'
  }

  /** Membership in the class `[A-Z,a-z,0-9]`. */
  predicate IsWordChar(c: char) {
    ('A' <= c <= 'Z') || c == ',' || ('a' <= c <= 'z') || ('0' <= c <= '9')
  }

  /** Which characters a run construct may consume. */
  predicate Allows(tok: Token, c: char)
    requires !tok.Lit?
  {
    if tok.AnyRun? then !IsLineTerminator(c) else IsWordChar(c)
  }

  function TokenOf(c: char): Token {
    if c == '*' then AnyRun else if c == '#' then WordRun else Lit(c)
  }

  /** The binding read directly in the three-construct grammar. */
  function Tokens(binding: string): seq<Token> {
    if binding == [] then [] else [TokenOf(binding[0])] + Tokens(binding[1..])
  }

  // ---------------------------------------------------------------------------
  // regexify, as written: three global replacements applied one after the other

  /** `s.replace(/c/g, r)`: every occurrence of `c` replaced by `r`, the result not rescanned. */
  function ReplaceAll(s: string, c: char, r: string): string {
    if s == [] then [] else (if s[0] == c then r else [s[0]]) + ReplaceAll(s[1..], c, r)
  }

  const WordClass: string := "[A-Z,a-z,0-9]*"

  function Regexify(binding: string): string {
    ReplaceAll(ReplaceAll(ReplaceAll(binding, '.', "\\."), '*', ".*"), '#', WordClass)
  }

  /** What `regexify` turns a single character into. */
  function Piece(c: char): string {
    if c == '.' then "\\." else if c == '*' then ".*" else if c == '#' then WordClass else [c]
  }

  lemma {:induction false} ReplaceAllAppend(a: string, b: string, c: char, r: string)
    ensures ReplaceAll(a + b, c, r) == ReplaceAll(a, c, r) + ReplaceAll(b, c, r)
  {
    if a == [] {
      assert a + b == b;
    } else {
      assert (a + b)[0] == a[0];
      assert (a + b)[1..] == a[1..] + b;
      ReplaceAllAppend(a[1..], b, c, r);
    }
  }

  /** The three replacements never rewrite each other's output: each character is rewritten alone. */
  lemma RegexifyCons(c: char, rest: string)
    ensures Regexify([c] + rest) == Piece(c) + Regexify(rest)
  {
    var s1 := ReplaceAll([c], '.', "\\.");
    var s2 := ReplaceAll(s1, '*', ".*");
    ReplaceAllAppend([c], rest, '.', "\\.");
    ReplaceAllAppend(s1, ReplaceAll(rest, '.', "\\."), '*', ".*");
    ReplaceAllAppend(s2, ReplaceAll(ReplaceAll(rest, '.', "\\."), '*', ".*"), '#', WordClass);
    assert ReplaceAll([c], '.', "\\.") == (if c == '.' then "\\." else [c]);
    if c == '.' {
      assert ReplaceAll("\\.", '*', ".*") == "\\.";
      assert ReplaceAll("\\.", '#', WordClass) == "\\.";
    } else if c == '*' {
      assert ReplaceAll(".*", '#', WordClass) == ".*";
    } else if c == '#' {
      assert ReplaceAll([c], '*', ".*") == [c];
    } else {
      assert ReplaceAll([c], '*', ".*") == [c];
      assert ReplaceAll([c], '#', WordClass) == [c];
    }
  }

  // ---------------------------------------------------------------------------
  // The anchored expression `"^" + regexify(binding) + "$"`, read back

  function Cons(t: Token, rest: Option<seq<Token>>): Option<seq<Token>> {
    if rest.Some? then Some([t] + rest.value) else None
  }

  /**
   * The constructs of the regular-expression subset that `regexify` produces;
   * anything else (an unescaped metacharacter, another escape, a lone `.`) is
   * outside the subset and yields `None`.
   */
  function ParseBody(s: string): Option<seq<Token>>
    decreases |s|
  {
    if s == [] then Some([])
    else if s[0] == '\\' then
      if |s| >= 2 && s[1] == '.' then Cons(Lit('.'), ParseBody(s[2..])) else None
    else if s[0] == '.' then
      if |s| >= 2 && s[1] == '*' then Cons(AnyRun, ParseBody(s[2..])) else None
    else if |WordClass| <= |s| && s[..|WordClass|] == WordClass then
      Cons(WordRun, ParseBody(s[|WordClass|..]))
    else if IsMeta(s[0]) || s[0] == '*' then None
    else Cons(Lit(s[0]), ParseBody(s[1..]))
  }

  /** `new RegExp(rx)` for an expression anchored at both ends. */
  function Compile(rx: string): Option<seq<Token>> {
    if |rx| >= 2 && rx[0] == '^' && rx[|rx| - 1] == '$' then ParseBody(rx[1..|rx| - 1]) else None
  }

  lemma ParsePiece(c: char, rest: string)
    requires !IsMeta(c)
    ensures ParseBody(Piece(c) + rest) == Cons(TokenOf(c), ParseBody(rest))
  {
    var s := Piece(c) + rest;
    if c == '.' {
      assert s[0] == '\\' && s[1] == '.' && s[2..] == rest;
    } else if c == '*' {
      assert s[0] == '.' && s[1] == '*' && s[2..] == rest;
    } else if c == '#' {
      assert s[0] == '[';
      assert s[..|WordClass|] == WordClass && s[|WordClass|..] == rest;
    } else {
      assert s[0] == c && s[1..] == rest;
      assert WordClass[0] == '[';
    }
  }

  lemma {:induction false} ParseRegexify(binding: string)
    requires WellFormed(binding)
    ensures ParseBody(Regexify(binding)) == Some(Tokens(binding))
  {
    if binding == [] {
      assert Regexify(binding) == [];
    } else {
      var c, rest := binding[0], binding[1..];
      assert binding == [c] + rest;
      RegexifyCons(c, rest);
      ParsePiece(c, Regexify(rest));
      ParseRegexify(rest);
    }
  }

  /**
   * For every binding over the modelled alphabet the anchored expression that
   * `compare` builds is exactly the binding's token program.
   */
  lemma CompileRegexify(binding: string)
    requires WellFormed(binding)
    ensures Compile("^" + Regexify(binding) + "$") == Some(Tokens(binding))
  {
    var rx := "^" + Regexify(binding) + "$";
    assert rx[1..|rx| - 1] == Regexify(binding);
    ParseRegexify(binding);
  }

  // ---------------------------------------------------------------------------
  // Matching

  /** `rgx.test(topic)` for an anchored program: a backtracking matcher over the whole topic. */
  function Test(p: seq<Token>, t: string): bool
    decreases |p| + |t|
  {
    if p == [] then t == []
    else if p[0].Lit? then t != [] && t[0] == p[0].c && Test(p[1..], t[1..])
    else Test(p[1..], t) || (t != [] && Allows(p[0], t[0]) && Test(p, t[1..]))
  }

  /** Which strings one construct can consume. */
  ghost predicate Fits(tok: Token, s: string) {
    if tok.Lit? then s == [tok.c] else forall i :: 0 <= i < |s| ==> Allows(tok, s[i])
  }

  /** Declarative reading: the topic splits into consecutive pieces, one per construct. */
  ghost predicate Accepts(p: seq<Token>, t: string)
    decreases |p|
  {
    if p == [] then t == []
    else exists k :: 0 <= k <= |t| && Fits(p[0], t[..k]) && Accepts(p[1..], t[k..])
  }

  lemma {:induction false} TestIffAccepts(p: seq<Token>, t: string)
    ensures Test(p, t) <==> Accepts(p, t)
    decreases |p| + |t|
  {
    if p == [] {
    } else if p[0].Lit? {
      if Test(p, t) {
        TestIffAccepts(p[1..], t[1..]);
        assert t[..1] == [p[0].c] && t[1..] == t[1..];
        assert Fits(p[0], t[..1]) && Accepts(p[1..], t[1..]);
      }
      if Accepts(p, t) {
        var k :| 0 <= k <= |t| && Fits(p[0], t[..k]) && Accepts(p[1..], t[k..]);
        assert |t[..k]| == 1;
        TestIffAccepts(p[1..], t[1..]);
      }
    } else {
      if Test(p, t) {
        if Test(p[1..], t) {
          TestIffAccepts(p[1..], t);
          assert t[..0] == [] && t[0..] == t;
          assert Fits(p[0], t[..0]) && Accepts(p[1..], t[0..]);
        } else {
          TestIffAccepts(p, t[1..]);
          var k :| 0 <= k <= |t[1..]| && Fits(p[0], t[1..][..k]) && Accepts(p[1..], t[1..][k..]);
          assert t[k + 1..] == t[1..][k..];
          forall i | 0 <= i < k + 1 ensures Allows(p[0], t[i]) {
            if i > 0 {
              assert t[i] == t[1..][..k][i - 1];
            }
          }
          assert Fits(p[0], t[..k + 1]);
        }
      }
      if Accepts(p, t) {
        var k :| 0 <= k <= |t| && Fits(p[0], t[..k]) && Accepts(p[1..], t[k..]);
        if k == 0 {
          assert t[0..] == t;
          TestIffAccepts(p[1..], t);
        } else {
          assert t[..k][0] == t[0];
          assert t[1..][..k - 1] == t[..k][1..];
          assert t[1..][k - 1..] == t[k..];
          assert Fits(p[0], t[1..][..k - 1]);
          assert Accepts(p, t[1..]);
          TestIffAccepts(p, t[1..]);
        }
      }
    }
  }

  /** `compare(binding, topic)` without the cache: the anchored program of the binding tests the topic. */
  function Matches(binding: string, topic: string): bool {
    Test(Tokens(binding), topic)
  }

  /** The declarative meaning of a binding, stated on the binding itself. */
  lemma MatchesIffAccepts(binding: string, topic: string)
    ensures Matches(binding, topic) <==> Accepts(Tokens(binding), topic)
  {
    TestIffAccepts(Tokens(binding), topic);
  }

  /** A binding without wildcards matches exactly the identical topic. */
  lemma {:induction false} LiteralBindingMatchesOnlyItself(binding: string, topic: string)
    requires forall i :: 0 <= i < |binding| ==> binding[i] != '*' && binding[i] != '#'
    ensures Matches(binding, topic) <==> topic == binding
  {
    if binding != [] {
      LiteralBindingMatchesOnlyItself(binding[1..], if topic == [] then [] else topic[1..]);
      if topic != [] && topic[0] == binding[0] {
        assert topic == [topic[0]] + topic[1..];
        assert binding == [binding[0]] + binding[1..];
      }
    }
  }

  // ---------------------------------------------------------------------------
  // Worked cases for `*` and `#`

  /** `*` spans a word of any length between two dots. */
  lemma StarSpansAnyRun()
    ensures Matches("a.*.c", "a.b.c")
    ensures Matches("a.*.c", "a.bb.c")
  {
    var tail := [Lit('.'), Lit('c')];
    assert Tokens("a.*.c") == [Lit('a'), Lit('.'), AnyRun] + tail;
    assert ([AnyRun] + tail)[1..] == tail;
    assert Test(tail, ".c");
    assert Test([AnyRun] + tail, "b.c");
    assert Test([AnyRun] + tail, "bb.c");
  }

  /** `*` does not excuse a literal that follows it. */
  lemma StarKeepsTheSuffix()
    ensures !Matches("a.*.c", "a.b.d")
  {
    var tail := [Lit('.'), Lit('c')];
    assert Tokens("a.*.c") == [Lit('a'), Lit('.'), AnyRun] + tail;
    assert ([AnyRun] + tail)[1..] == tail;
    assert !Test(tail, "b.d") && !Test(tail, ".d") && !Test(tail, "d") && !Test(tail, "");
    assert "b.d"[1..] == ".d" && ".d"[1..] == "d" && "d"[1..] == "";
    assert !Test([AnyRun] + tail, "");
    assert !Test([AnyRun] + tail, "d");
    assert !Test([AnyRun] + tail, ".d");
    assert !Test([AnyRun] + tail, "b.d");
  }

  /** A trailing `#` takes whatever is left of the topic exactly when all of it is word characters. */
  lemma {:induction false} TrailingWordRun(s: string)
    ensures Test([WordRun], s) <==> forall i :: 0 <= i < |s| ==> IsWordChar(s[i])
    decreases |s|
  {
    if s != [] {
      TrailingWordRun(s[1..]);
      assert [WordRun][1..] == [];
      assert (forall i :: 0 <= i < |s| ==> IsWordChar(s[i])) <==>
        IsWordChar(s[0]) && forall i :: 0 <= i < |s[1..]| ==> IsWordChar(s[1..][i]);
    }
  }

  /** `a.#` matches `a.` followed by any run of word characters, and nothing else that starts with `a.`. */
  lemma HashTail(rest: string)
    ensures Matches("a.#", "a." + rest) <==> forall i :: 0 <= i < |rest| ==> IsWordChar(rest[i])
  {
    var p := [Lit('a'), Lit('.'), WordRun];
    var t := "a." + rest;
    assert Tokens("a.#") == p;
    assert t[0] == 'a' && t[1..][0] == '.' && t[1..][1..] == rest;
    assert p[1..] == [Lit('.'), WordRun] && p[1..][1..] == [WordRun];
    assert Test(p, t) == Test(p[1..], t[1..]) == Test([WordRun], rest);
    TrailingWordRun(rest);
  }

  lemma HashSpansWordCharacters()
    ensures Matches("a.#", "a.")
    ensures Matches("a.#", "a.bc123")
    ensures Matches("a.#", "a.b,c")
  {
    assert Matches("a.#", "a.") by {
      HashTail("");
      assert "a." + "" == "a.";
    }
    assert Matches("a.#", "a.bc123") by {
      HashTail("bc123");
      assert "a." + "bc123" == "a.bc123";
    }
    assert Matches("a.#", "a.b,c") by {
      HashTail("b,c");
      assert "a." + "b,c" == "a.b,c";
    }
  }

  /** `#` does not cross a dot. */
  lemma HashStopsAtDot()
    ensures !Matches("a.#", "a.b.c")
  {
    HashTail("b.c");
    assert "a." + "b.c" == "a.b.c";
    assert !IsWordChar("b.c"[1]);
  }

  lemma EmptyBindingMatchesOnlyEmptyTopic(topic: string)
    ensures Matches("", topic) <==> topic == ""
  {
  }
}
