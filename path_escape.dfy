/** The rewriting of a source URL's path into the regular expression that the
    generated directives anchor between `^` and `$`: percent signs become the
    regex hex-escape prefix `\x`, dots become literal `\.`, a trailing slash
    becomes optional, and, for a source with a query string, every slash that
    stands right before a `?` is deleted. Each step is one `re.sub` or
    `str.replace` in the generator; each is a function here. */
module PathEscape {

  /** The number of occurrences of `c` in `s`. */
  function Count(c: char, s: string): nat
  {
    if s == [] then 0 else (if s[0] == c then 1 else 0) + Count(c, s[1..])
  }

  /** `s` with every occurrence of `c` deleted. */
  function Without(c: char, s: string): string
  {
    if s == [] then [] else (if s[0] == c then [] else [s[0]]) + Without(c, s[1..])
  }

  /** `s` holds the two characters `a`, `b` side by side somewhere. */
  predicate HasPair(s: string, a: char, b: char)
  {
    exists i :: 0 <= i < |s| - 1 && s[i] == a && s[i + 1] == b
  }

  // ---------------------------------------------------------------------------
  // Step 1: every `%` becomes `\x`.

  function EscapePercent(s: string): (r: string)
    ensures '%' !in r
    ensures |r| == |s| + Count('%', s)
  {
    if s == [] then [] else (if s[0] == '%' then "\\x" else [s[0]]) + EscapePercent(s[1..])
  }

  /** Reads every `\x` back as `%`; the partner of EscapePercent. */
  function UnescapePercent(r: string): string
  {
    if r == [] then []
    else if |r| >= 2 && r[0] == '\\' && r[1] == 'x' then "%" + UnescapePercent(r[2..])
    else [r[0]] + UnescapePercent(r[1..])
  }

  /** A path without backslashes is recovered from its percent-escaped form;
      with a backslash in the path (`\x` already there) the step loses
      information. */
  lemma {:induction false} UnescapePercentRoundTrip(s: string)
    requires '\\' !in s
    ensures UnescapePercent(EscapePercent(s)) == s
  {
    if s != [] {
      UnescapePercentRoundTrip(s[1..]);
      if s[0] == '%' {
        assert EscapePercent(s) == "\\x" + EscapePercent(s[1..]);
        assert EscapePercent(s)[2..] == EscapePercent(s[1..]);
      } else {
        assert EscapePercent(s) == [s[0]] + EscapePercent(s[1..]);
        assert EscapePercent(s)[1..] == EscapePercent(s[1..]);
      }
    }
  }

  lemma {:induction false} EscapePercentAppend(a: string, b: string)
    ensures EscapePercent(a + b) == EscapePercent(a) + EscapePercent(b)
  {
    if a != [] {
      var ab := a + b;
      assert ab[0] == a[0] && ab[1..] == a[1..] + b;
      EscapePercentAppend(a[1..], b);
      var h := if a[0] == '%' then "\\x" else [a[0]];
      assert EscapePercent(ab) == h + EscapePercent(a[1..] + b);
      assert EscapePercent(a) == h + EscapePercent(a[1..]);
    } else {
      assert a + b == b;
    }
  }

  /** Characters other than `%`, `\` and `x` are present after the step
      exactly when they were present before it. */
  lemma {:induction false} EscapePercentKeeps(s: string, c: char)
    requires c != '%' && c != '\\' && c != 'x'
    ensures c in EscapePercent(s) <==> c in s
  {
    if s != [] {
      EscapePercentKeeps(s[1..], c);
      assert s == [s[0]] + s[1..];
    }
  }

  // ---------------------------------------------------------------------------
  // Step 2: every `.` becomes `\.`.

  function EscapeDots(s: string): (r: string)
    ensures |r| == |s| + Count('.', s)
  {
    if s == [] then [] else (if s[0] == '.' then "\\." else [s[0]]) + EscapeDots(s[1..])
  }

  /** Every dot after step 2 is an escaped one: a backslash stands before it. */
  lemma {:induction false} EscapeDotsEscaped(s: string)
    ensures forall i :: 0 <= i < |EscapeDots(s)| && EscapeDots(s)[i] == '.' ==>
      0 < i && EscapeDots(s)[i - 1] == '\\'
  {
    if s != [] {
      EscapeDotsEscaped(s[1..]);
      var rest := EscapeDots(s[1..]);
      var head := if s[0] == '.' then "\\." else [s[0]];
      var r := head + rest;
      assert EscapeDots(s) == r;
      forall i | 0 <= i < |r| && r[i] == '.'
        ensures 0 < i && r[i - 1] == '\\'
      {
        if i < |head| {
          assert r[i] == head[i];
          if s[0] == '.' {
            assert head[0] == '\\' && head[1] == '.';
          }
        } else {
          assert r[i] == rest[i - |head|];
          if i > |head| {
            assert r[i - 1] == rest[i - 1 - |head|];
          }
        }
      }
    }
  }

  /** Reads every `\.` back as `.`; the partner of EscapeDots. */
  function UnescapeDots(r: string): string
  {
    if r == [] then []
    else if |r| >= 2 && r[0] == '\\' && r[1] == '.' then "." + UnescapeDots(r[2..])
    else [r[0]] + UnescapeDots(r[1..])
  }

  /** Dot escaping loses nothing: every path is recovered from its escaped
      form, backslashes included. */
  lemma {:induction false} UnescapeDotsRoundTrip(s: string)
    ensures UnescapeDots(EscapeDots(s)) == s
  {
    if s != [] {
      UnescapeDotsRoundTrip(s[1..]);
      var rest := EscapeDots(s[1..]);
      if s[0] == '.' {
        assert EscapeDots(s) == "\\." + rest;
        assert EscapeDots(s)[2..] == rest;
      } else {
        assert EscapeDots(s) == [s[0]] + rest;
        assert EscapeDots(s)[1..] == rest;
        EscapeDotsEscaped(s[1..]);
        assert rest != [] ==> rest[0] != '.';
      }
    }
  }

  lemma {:induction false} EscapeDotsAppend(a: string, b: string)
    ensures EscapeDots(a + b) == EscapeDots(a) + EscapeDots(b)
  {
    if a != [] {
      var ab := a + b;
      assert ab[0] == a[0] && ab[1..] == a[1..] + b;
      EscapeDotsAppend(a[1..], b);
      var h := if a[0] == '.' then "\\." else [a[0]];
      assert EscapeDots(ab) == h + EscapeDots(a[1..] + b);
      assert EscapeDots(a) == h + EscapeDots(a[1..]);
    } else {
      assert a + b == b;
    }
  }

  /** Characters other than `.` and `\` are present after the step exactly
      when they were present before it. */
  lemma {:induction false} EscapeDotsKeeps(s: string, c: char)
    requires c != '.' && c != '\\'
    ensures c in EscapeDots(s) <==> c in s
  {
    if s != [] {
      EscapeDotsKeeps(s[1..], c);
      assert s == [s[0]] + s[1..];
    }
  }

  // ---------------------------------------------------------------------------
  // Steps 1 and 2 together.

  function EscapePath(path: string): string
  {
    EscapeDots(EscapePercent(path))
  }

  /** What steps 1 and 2 do to one character. */
  function EscapeChar(c: char): string
  {
    if c == '%' then "\\x" else if c == '.' then "\\." else [c]
  }

  /** The reference reading of steps 1 and 2: each character of the path is
      escaped on its own, left to right. */
  function EscapeEach(path: string): string
  {
    if path == [] then [] else EscapeChar(path[0]) + EscapeEach(path[1..])
  }

  lemma {:induction false} EscapePathAppend(a: string, b: string)
    ensures EscapePath(a + b) == EscapePath(a) + EscapePath(b)
  {
    EscapePercentAppend(a, b);
    EscapeDotsAppend(EscapePercent(a), EscapePercent(b));
  }

  /** Running the two replacements one after the other over the whole path is
      the same as escaping it character by character: the `\x` written by the
      first step holds no dot for the second one to escape. */
  lemma {:induction false} EscapePathIsPerCharacter(path: string)
    ensures EscapePath(path) == EscapeEach(path)
  {
    if path != [] {
      assert path == [path[0]] + path[1..];
      EscapePathAppend([path[0]], path[1..]);
      EscapePathIsPerCharacter(path[1..]);
      assert EscapePercent([path[0]]) == (if path[0] == '%' then "\\x" else [path[0]]);
      if path[0] == '%' {
        assert EscapeDots("\\x") == "\\x" by {
          assert EscapeDots("x") == "x";
        }
      } else {
        assert EscapeDots([path[0]]) == (if path[0] == '.' then "\\." else [path[0]]);
      }
    }
  }

  /** After steps 1 and 2 the path has no `%` left, and every `.` in it is a
      dot of the path escaped as `\.`. */
  lemma EscapePathEscapes(path: string)
    ensures '%' !in EscapePath(path)
    ensures forall i :: 0 <= i < |EscapePath(path)| && EscapePath(path)[i] == '.' ==>
      0 < i && EscapePath(path)[i - 1] == '\\'
    ensures Count('.', EscapePath(path)) == Count('.', path)
  {
    EscapePercentCountDots(path);
    EscapeDotsCountDots(EscapePercent(path));
    EscapeDotsEscaped(EscapePercent(path));
    EscapeDotsKeeps(EscapePercent(path), '%');
  }

  lemma {:induction false} EscapePercentCountDots(s: string)
    ensures Count('.', EscapePercent(s)) == Count('.', s)
  {
    if s != [] {
      EscapePercentCountDots(s[1..]);
      var head := if s[0] == '%' then "\\x" else [s[0]];
      CountAppend('.', head, EscapePercent(s[1..]));
    }
  }

  lemma {:induction false} EscapeDotsCountDots(s: string)
    ensures Count('.', EscapeDots(s)) == Count('.', s)
  {
    if s != [] {
      EscapeDotsCountDots(s[1..]);
      var head := if s[0] == '.' then "\\." else [s[0]];
      CountAppend('.', head, EscapeDots(s[1..]));
    }
  }

  lemma {:induction false} CountAppend(c: char, a: string, b: string)
    ensures Count(c, a + b) == Count(c, a) + Count(c, b)
  {
    if a != [] {
      assert (a + b)[1..] == a[1..] + b;
      CountAppend(c, a[1..], b);
    } else {
      assert a + b == b;
    }
  }

  /** Recovering a backslash-free path from its escaped form: undo the dots,
      then the percent signs. */
  lemma UnescapePathRoundTrip(path: string)
    requires '\\' !in path
    ensures UnescapePercent(UnescapeDots(EscapePath(path))) == path
  {
    UnescapeDotsRoundTrip(EscapePercent(path));
    UnescapePercentRoundTrip(path);
  }

  /** `?`, `/` and newlines are in the escaped path exactly when they are in
      the path. */
  lemma EscapePathKeeps(path: string, c: char)
    requires c == '?' || c == '/' || c == '\n'
    ensures c in EscapePath(path) <==> c in path
  {
    EscapePercentKeeps(path, c);
    EscapeDotsKeeps(EscapePercent(path), c);
  }

  // ---------------------------------------------------------------------------
  // Step 3: a `/` at the end (Python's `$`: the very end, or just before a
  // final newline) becomes `/?`.

  function OptionalTrailingSlash(s: string): string
  {
    if |s| >= 1 && s[|s| - 1] == '/' then s + "?"
    else if |s| >= 2 && s[|s| - 2] == '/' && s[|s| - 1] == '\n' then s[..|s| - 1] + "?\n"
    else s
  }

  // ---------------------------------------------------------------------------
  // Step 4 (source with a query string): every `/` directly followed by `?`
  // is deleted. The look-ahead reads the string before deletion, so in `//?`
  // only the second slash goes.

  function DropSlashBeforeQuestion(s: string): string
  {
    if |s| < 2 then s
    else if s[0] == '/' && s[1] == '?' then DropSlashBeforeQuestion(s[1..])
    else [s[0]] + DropSlashBeforeQuestion(s[1..])
  }

  /** Step 4 deletes slashes and nothing else: with every `/` removed, the
      string before and after it is the same. */
  lemma {:induction false} DropOnlyDeletesSlashes(s: string)
    ensures Without('/', DropSlashBeforeQuestion(s)) == Without('/', s)
  {
    if |s| >= 2 {
      DropOnlyDeletesSlashes(s[1..]);
      var d := DropSlashBeforeQuestion(s[1..]);
      if !(s[0] == '/' && s[1] == '?') {
        assert ([s[0]] + d)[1..] == d;
      }
    }
  }

  /** Step 4 leaves a string without `?` as it is. */
  lemma {:induction false} DropWithoutQuestion(s: string)
    requires '?' !in s
    ensures DropSlashBeforeQuestion(s) == s
  {
    if |s| >= 2 {
      assert s[1] in s;
      assert forall c :: c in s[1..] ==> c in s;
      DropWithoutQuestion(s[1..]);
      assert s == [s[0]] + s[1..];
    }
  }

  /** Step 4 deletes a slash that stands before a `?`. */
  lemma DropConsSkip(v: string)
    requires v != [] && v[0] == '?'
    ensures DropSlashBeforeQuestion(['/'] + v) == DropSlashBeforeQuestion(v)
  {
    assert (['/'] + v)[1..] == v;
  }

  /** Step 4 keeps a first character that is not a slash before a `?`. */
  lemma DropConsKeep(c: char, v: string)
    requires !(v != [] && c == '/' && v[0] == '?')
    ensures DropSlashBeforeQuestion([c] + v) == [c] + DropSlashBeforeQuestion(v)
  {
    assert ([c] + v)[1..] == v;
    if v == [] {
      assert [c] + v == [c];
    }
  }

  /** Appending `/?` to a string appends just `?` to its rewritten form: the
      new slash is deleted, and the old last character is now followed by a
      slash, not a `?`. */
  lemma DropAppendSlashQuestion(s: string, t: string)
    ensures DropSlashBeforeQuestion(s + "/?" + t) == DropSlashBeforeQuestion(s) + DropSlashBeforeQuestion("?" + t)
  {
    var q := "?" + t;
    assert s + "/?" + t == s + (['/'] + q);
    DropAppendSlash(s, q);
  }

  /** The general form: a slash in front of a string that starts with `?`. */
  lemma {:induction false} DropAppendSlash(s: string, q: string)
    requires q != [] && q[0] == '?'
    ensures DropSlashBeforeQuestion(s + (['/'] + q)) == DropSlashBeforeQuestion(s) + DropSlashBeforeQuestion(q)
  {
    var u := s + (['/'] + q);
    if s == [] {
      assert u == ['/'] + q;
      DropConsSkip(q);
    } else {
      var c, w := s[0], s[1..];
      var v := w + (['/'] + q);
      assert u == [c] + v;
      assert s == [c] + w;
      DropAppendSlash(w, q);
      var dw, dq := DropSlashBeforeQuestion(w), DropSlashBeforeQuestion(q);
      if w == [] {
        assert v == ['/'] + q;
        DropConsKeep(c, v);
        DropConsKeep(c, w);
        assert dw == [];
      } else if c == '/' && w[0] == '?' {
        assert v[0] == '?';
        DropConsSkip(v);
        DropConsSkip(w);
      } else {
        assert v[0] == w[0];
        DropConsKeep(c, v);
        DropConsKeep(c, w);
        assert [c] + (dw + dq) == ([c] + dw) + dq;
      }
    }
  }

  /** `s` holds `//?` somewhere. */
  predicate HasSlashSlashQuestion(s: string)
  {
    exists i :: 0 <= i < |s| - 2 && s[i] == '/' && s[i + 1] == '/' && s[i + 2] == '?'
  }

  /** After step 4 no `/` is followed by `?`, unless the string held `//?`:
      the look-ahead deletes only the slash next to the `?`. */
  lemma {:induction false} DropLeavesNoSlashQuestion(s: string)
    requires !HasSlashSlashQuestion(s)
    ensures !HasPair(DropSlashBeforeQuestion(s), '/', '?')
  {
    if |s| >= 2 {
      var t := s[1..];
      assert !HasSlashSlashQuestion(t) by {
        forall i | 0 <= i < |t| - 2
          ensures !(t[i] == '/' && t[i + 1] == '/' && t[i + 2] == '?')
        {
          assert t[i] == s[i + 1] && t[i + 1] == s[i + 2] && t[i + 2] == s[i + 3];
        }
      }
      DropLeavesNoSlashQuestion(t);
      var d := DropSlashBeforeQuestion(t);
      if !(s[0] == '/' && s[1] == '?') {
        var r := [s[0]] + d;
        DropFirst(t);
        assert t[0] == s[1];
        assert |t| >= 2 ==> t[1] == s[2];
        forall i | 0 <= i < |r| - 1
          ensures !(r[i] == '/' && r[i + 1] == '?')
        {
          if i > 0 {
            assert r[i] == d[i - 1] && r[i + 1] == d[i];
          }
        }
      }
    }
  }

  /** Step 4 leaves a `?` at the front of a non-empty string only where the
      string began with `?` or with `/?`. */
  lemma {:induction false} DropFirst(t: string)
    requires |t| >= 1
    ensures DropSlashBeforeQuestion(t) != []
    ensures DropSlashBeforeQuestion(t)[0] == '?' ==> t[0] == '?' || (|t| >= 2 && t[0] == '/' && t[1] == '?')
  {
    if |t| >= 2 && t[0] == '/' && t[1] == '?' {
      DropFirst(t[1..]);
    }
  }

  /** `//?` is the input that keeps a `/?` after step 4. */
  lemma DoubleSlashKeepsOne()
    ensures DropSlashBeforeQuestion("//?") == "/?"
  {
  }

  // ---------------------------------------------------------------------------
  // The whole pipeline.

  /** The regular expression matched against the request path, for a source
      whose path is `path` and which has a query string exactly when
      `hasQuery`. */
  function SourcePattern(path: string, hasQuery: bool): string
  {
    var p := OptionalTrailingSlash(EscapePath(path));
    if hasQuery then DropSlashBeforeQuestion(p) else p
  }

  /** The escape of one more character is appended to the escaped path. */
  lemma EscapePathSnoc(p: string, c: char)
    ensures EscapePath(p + [c]) == EscapePath(p) + EscapeChar(c)
  {
    EscapePathAppend(p, [c]);
    EscapePathIsPerCharacter([c]);
    assert EscapeEach([c]) == EscapeChar(c) + EscapeEach([]);
  }

  /** The escape of a character ends in `/` or a newline only for that
      character itself. */
  lemma EscapeCharLast(c: char)
    ensures var e := EscapeChar(c);
      |e| >= 1 && (e[|e| - 1] == '/' <==> c == '/') && (e[|e| - 1] == '\n' <==> c == '\n')
  {
  }

  /** The escaped form of a non-empty path ends in `/` (or in a newline)
      exactly when the path does. */
  lemma EscapePathLast(path: string)
    requires path != []
    ensures var e := EscapePath(path);
      |e| >= 1 && (e[|e| - 1] == '/' <==> path[|path| - 1] == '/') &&
      (e[|e| - 1] == '\n' <==> path[|path| - 1] == '\n')
  {
    var p, c := path[..|path| - 1], path[|path| - 1];
    assert path == p + [c];
    EscapePathSnoc(p, c);
    EscapeCharLast(c);
  }

  /** No `%` survives the pipeline, with or without a query string. */
  lemma SourcePatternNoPercent(path: string, hasQuery: bool)
    ensures '%' !in SourcePattern(path, hasQuery)
  {
    var e := EscapePath(path);
    EscapePathEscapes(path);
    var p := OptionalTrailingSlash(e);
    assert '%' !in p by {
      assert |e| >= 1 ==> forall c :: c in e[..|e| - 1] ==> c in e;
    }
    if hasQuery {
      DropOnlyDeletesSlashes(p);
      WithoutKeeps(p, '%');
      WithoutKeeps(DropSlashBeforeQuestion(p), '%');
    }
  }

  /** A path without newlines gives a pattern without newlines. */
  lemma SourcePatternNoNewline(path: string, hasQuery: bool)
    requires '\n' !in path
    ensures '\n' !in SourcePattern(path, hasQuery)
  {
    var e := EscapePath(path);
    EscapePathKeeps(path, '\n');
    assert |e| >= 1 ==> e[|e| - 1] in e;
    var p := OptionalTrailingSlash(e);
    assert '\n' !in p;
    if hasQuery {
      DropOnlyDeletesSlashes(p);
      WithoutKeeps(p, '\n');
      WithoutKeeps(DropSlashBeforeQuestion(p), '\n');
    }
  }

  lemma {:induction false} WithoutKeeps(s: string, c: char)
    requires c != '/'
    ensures c in Without('/', s) <==> c in s
  {
    if s != [] {
      WithoutKeeps(s[1..], c);
      assert s == [s[0]] + s[1..];
    }
  }

  /** A path without a query string that ends in `/` yields a pattern ending
      in `/?`, so the directive matches the path with and without its
      trailing slash. */
  lemma SourcePatternTrailingSlash(p: string)
    ensures SourcePattern(p + "/", false) == EscapePath(p) + "/?"
  {
    EscapePathSnoc(p, '/');
    assert EscapeChar('/') == "/";
  }

  /** A path ending in anything but `/` (and not in `/` and a newline) is
      only escaped: no suffix is added. */
  lemma SourcePatternNoTrailingSlash(path: string)
    requires path != [] && path[|path| - 1] != '/'
    requires !(|path| >= 2 && path[|path| - 2] == '/' && path[|path| - 1] == '\n')
    ensures SourcePattern(path, false) == EscapePath(path)
  {
    EscapePathLast(path);
    EscapePathSlashNewline(path);
    OptionalTrailingSlashUnchanged(EscapePath(path));
  }

  /** Step 3 leaves alone a string that ends neither in `/` nor in `/` and a
      newline. */
  lemma OptionalTrailingSlashUnchanged(e: string)
    requires e == [] || e[|e| - 1] != '/'
    requires !(|e| >= 2 && e[|e| - 2] == '/' && e[|e| - 1] == '\n')
    ensures OptionalTrailingSlash(e) == e
  {
  }

  /** The escaped path ends in `/` and a newline exactly when the path does. */
  lemma EscapePathSlashNewline(path: string)
    requires path != []
    ensures var e := EscapePath(path);
      (|e| >= 2 && e[|e| - 2] == '/' && e[|e| - 1] == '\n') <==>
      (|path| >= 2 && path[|path| - 2] == '/' && path[|path| - 1] == '\n')
  {
    var p, c := path[..|path| - 1], path[|path| - 1];
    assert path == p + [c];
    EscapePathSnoc(p, c);
    var e, ep := EscapePath(path), EscapePath(p);
    assert e == ep + EscapeChar(c);
    if c == '\n' {
      assert EscapeChar(c) == [c];
      if p != [] {
        EscapePathLast(p);
        assert e[|e| - 2] == ep[|ep| - 1];
      }
    } else {
      EscapeCharLast(c);
    }
  }

  /** Python's `$` also matches just before a final newline, so a path ending
      in `/` and a newline gets its `?` before the newline. */
  lemma SourcePatternSlashNewline(p: string)
    ensures SourcePattern(p + "/\n", false) == EscapePath(p) + "/?\n"
  {
    assert p + "/\n" == (p + "/") + "\n";
    EscapePathSnoc(p, '/');
    EscapePathSnoc(p + "/", '\n');
    assert EscapeChar('/') == "/" && EscapeChar('\n') == "\n";
    assert EscapePath(p + "/\n") == EscapePath(p) + "/\n";
    OptionalBeforeNewline(EscapePath(p));
  }

  lemma OptionalBeforeNewline(x: string)
    ensures OptionalTrailingSlash(x + "/\n") == x + "/?\n"
  {
    var e := x + "/\n";
    assert e[|e| - 1] == '\n' && e[|e| - 2] == '/';
    assert e[..|e| - 1] == x + "/";
  }

  /** With a query string, a path that does not hold `?` itself and does not
      end in `/` keeps its escaped form unchanged: no slash is deleted. */
  lemma SourcePatternQueryNoTrailingSlash(path: string)
    requires '?' !in path
    requires path == [] || path[|path| - 1] != '/'
    requires !(|path| >= 2 && path[|path| - 2] == '/' && path[|path| - 1] == '\n')
    ensures SourcePattern(path, true) == EscapePath(path)
  {
    EscapePathKeeps(path, '?');
    DropWithoutQuestion(EscapePath(path));
    if path != [] {
      SourcePatternNoTrailingSlash(path);
    }
  }

  /** With a query string, a trailing slash of a path without `?` is dropped
      from the pattern, but the `?` that step 3 wrote stays behind: the
      pattern ends in `?`, which the regular expression engine reads as
      "the previous character is optional". */
  lemma SourcePatternQueryTrailingSlash(p: string)
    requires '?' !in p
    ensures SourcePattern(p + "/", true) == EscapePath(p) + "?"
  {
    SourcePatternTrailingSlash(p);
    var e := EscapePath(p);
    assert e + "/?" == e + "/?" + [];
    DropAppendSlashQuestion(e, []);
    EscapePathKeeps(p, '?');
    DropWithoutQuestion(e);
    assert DropSlashBeforeQuestion("?") == "?";
  }

  /** With a query string, the pattern of a path that holds no `?` and no
      newline and does not end in `//` has no `/` directly followed by `?`. */
  lemma SourcePatternQueryNoSlashQuestion(path: string)
    requires '?' !in path && '\n' !in path
    requires !(|path| >= 2 && path[|path| - 2] == '/' && path[|path| - 1] == '/')
    ensures !HasPair(SourcePattern(path, true), '/', '?')
  {
    var e := EscapePath(path);
    EscapePathKeeps(path, '?');
    var s := OptionalTrailingSlash(e);
    if path != [] && path[|path| - 1] == '/' {
      var p := path[..|path| - 1];
      assert path == p + "/";
      SourcePatternTrailingSlash(p);
      assert s == EscapePath(p) + "/?";
      assert forall c :: c in p ==> c in path;
      EscapePathKeeps(p, '?');
      if p != [] {
        EscapePathLast(p);
      }
      NoTripleAppendQuestion(EscapePath(p));
    } else {
      EscapePathKeeps(path, '\n');
      if path != [] {
        EscapePathLast(path);
        assert path[|path| - 1] in path;
      }
      assert s == e;
      NoTripleWithoutQuestion(e);
    }
    DropLeavesNoSlashQuestion(s);
  }

  /** A string without `?` does not hold `//?`. */
  lemma NoTripleWithoutQuestion(s: string)
    requires '?' !in s
    ensures !HasSlashSlashQuestion(s)
  {
    forall i | 0 <= i < |s| - 2
      ensures !(s[i] == '/' && s[i + 1] == '/' && s[i + 2] == '?')
    {
      assert s[i + 2] in s;
    }
  }

  /** `/?` appended to a `?`-free string that does not end in `/` brings no
      `//?`. */
  lemma NoTripleAppendQuestion(e: string)
    requires '?' !in e
    requires e == [] || e[|e| - 1] != '/'
    ensures !HasSlashSlashQuestion(e + "/?")
  {
    var s := e + "/?";
    forall i | 0 <= i < |s| - 2
      ensures !(s[i] == '/' && s[i + 1] == '/' && s[i + 2] == '?')
    {
      if i + 2 < |e| {
        assert s[i + 2] == e[i + 2] && e[i + 2] in e;
      } else if i + 2 == |e| {
        assert s[i + 2] == '/';
      } else {
        assert s[i] == e[|e| - 1];
      }
    }
  }
}
