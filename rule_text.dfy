/** The text of the two kinds of Apache directive the generator writes, and
    the line structure of that text. Every directive is terminated by its own
    newline, so the output file is the directives written one after another. */
module RuleText {

  /** The one-line directive for a source without a query string: a request
      path matching `^pattern$` is redirected with `code` to `destination`. */
  function RedirectMatchRule(code: string, pattern: string, destination: string): string
  {
    "RedirectMatch " + code + " ^" + pattern + "$ " + destination + "\n"
  }

  /** The `mod_rewrite` block for a source with a query string: the request
      path must match `^pattern$` and the query string `^query$`; the request
      is then redirected with `code` to `destination`, as the last rule (`L`),
      discarding the original query string (`QSD`). */
  function RewriteBlockRule(code: string, pattern: string, query: string, destination: string): string
  {
    "<IfModule mod_rewrite.c>" + "\n"
      + "RewriteEngine On" + "\n"
      + ("RewriteCond %{REQUEST_URI} ^" + pattern + "$") + "\n"
      + ("RewriteCond %{QUERY_STRING} ^" + query + "$") + "\n"
      + ("RewriteRule ^(.*)$ " + destination + " [R=" + code + ",L,QSD]") + "\n"
      + "</IfModule>" + "\n"
  }

  /** The lines of the `RedirectMatch` directive, without their terminators. */
  function RedirectMatchLines(code: string, pattern: string, destination: string): seq<string>
  {
    ["RedirectMatch " + code + " ^" + pattern + "$ " + destination]
  }

  /** The six lines of the `mod_rewrite` block, without their terminators. */
  function RewriteBlockLines(code: string, pattern: string, query: string, destination: string): seq<string>
  {
    [ "<IfModule mod_rewrite.c>",
      "RewriteEngine On",
      "RewriteCond %{REQUEST_URI} ^" + pattern + "$",
      "RewriteCond %{QUERY_STRING} ^" + query + "$",
      "RewriteRule ^(.*)$ " + destination + " [R=" + code + ",L,QSD]",
      "</IfModule>" ]
  }

  // ---------------------------------------------------------------------------
  // Lines of text.

  /** Each line followed by a newline, in order. */
  function JoinLines(lines: seq<string>): (text: string)
    ensures lines != [] ==> |text| > 0 && text[|text| - 1] == '\n'
  {
    if lines == [] then [] else lines[0] + "\n" + JoinLines(lines[1..])
  }

  /** Concatenation of the strings of `parts`, in order. */
  function Concat(parts: seq<string>): string
  {
    if parts == [] then [] else parts[0] + Concat(parts[1..])
  }

  /** The lists of `groups`, one after another. */
  function Flatten(groups: seq<seq<string>>): seq<string>
  {
    if groups == [] then [] else groups[0] + Flatten(groups[1..])
  }

  /** The length of the first line of `s`: the index of its first newline, or
      `|s|` when it has none. */
  function LineLength(s: string): (k: nat)
    ensures k <= |s|
    ensures forall i :: 0 <= i < k ==> s[i] != '\n'
    ensures k < |s| ==> s[k] == '\n'
  {
    if s == [] || s[0] == '\n' then 0 else 1 + LineLength(s[1..])
  }

  /** The lines of `s`: the pieces between newlines, where a final newline
      ends the last line rather than starting an empty one. */
  function SplitLines(s: string): seq<string>
    decreases |s|
  {
    if s == [] then []
    else
      var k := LineLength(s);
      if k == |s| then [s] else [s[..k]] + SplitLines(s[k + 1..])
  }

  predicate NoNewline(line: string)
  {
    '\n' !in line
  }

  /** The first line of text that starts with a newline-free `a` and a
      newline is `a`. */
  lemma {:induction false} LineLengthOf(a: string, rest: string)
    requires NoNewline(a)
    ensures LineLength(a + "\n" + rest) == |a|
  {
    if a != [] {
      assert (a + "\n" + rest)[1..] == a[1..] + "\n" + rest;
      assert NoNewline(a[1..]) by { assert forall c :: c in a[1..] ==> c in a; }
      LineLengthOf(a[1..], rest);
    }
  }

  /** Splitting text written line by line gives back its lines, as long as
      none of them holds a newline of its own. */
  lemma {:induction false} SplitJoinLines(lines: seq<string>)
    requires forall i :: 0 <= i < |lines| ==> NoNewline(lines[i])
    ensures SplitLines(JoinLines(lines)) == lines
  {
    if lines != [] {
      var a, rest := lines[0], JoinLines(lines[1..]);
      var s := a + "\n" + rest;
      LineLengthOf(a, rest);
      assert s[..|a|] == a;
      assert s[|a| + 1..] == rest;
      SplitJoinLines(lines[1..]);
    }
  }

  lemma {:induction false} JoinLinesAppend(a: seq<string>, b: seq<string>)
    ensures JoinLines(a + b) == JoinLines(a) + JoinLines(b)
  {
    if a == [] {
      assert a + b == b;
    } else {
      assert (a + b)[1..] == a[1..] + b;
      JoinLinesAppend(a[1..], b);
    }
  }

  /** Writing line groups one after another is writing all their lines. */
  lemma {:induction false} ConcatJoinLines(groups: seq<seq<string>>)
    ensures Concat(seq(|groups|, i requires 0 <= i < |groups| => JoinLines(groups[i]))) == JoinLines(Flatten(groups))
  {
    var texts := seq(|groups|, i requires 0 <= i < |groups| => JoinLines(groups[i]));
    if groups != [] {
      ConcatJoinLines(groups[1..]);
      assert texts[1..] == seq(|groups[1..]|, i requires 0 <= i < |groups[1..]| => JoinLines(groups[1..][i]));
      JoinLinesAppend(groups[0], Flatten(groups[1..]));
    }
  }

  /** The `RedirectMatch` directive is its one line with a newline. */
  lemma RedirectMatchRuleIsLines(code: string, pattern: string, destination: string)
    ensures RedirectMatchRule(code, pattern, destination) == JoinLines(RedirectMatchLines(code, pattern, destination))
  {
    var lines := RedirectMatchLines(code, pattern, destination);
    assert JoinLines(lines) == lines[0] + "\n" + JoinLines([]);
  }

  /** The `mod_rewrite` block is its six lines, each with a newline. */
  lemma RewriteBlockRuleIsLines(code: string, pattern: string, query: string, destination: string)
    ensures RewriteBlockRule(code, pattern, query, destination) == JoinLines(RewriteBlockLines(code, pattern, query, destination))
  {
    var l2 := "RewriteCond %{REQUEST_URI} ^" + pattern + "$";
    var l3 := "RewriteCond %{QUERY_STRING} ^" + query + "$";
    var l4 := "RewriteRule ^(.*)$ " + destination + " [R=" + code + ",L,QSD]";
    JoinSix("<IfModule mod_rewrite.c>", "RewriteEngine On", l2, l3, l4, "</IfModule>");
  }

  lemma JoinCons(line: string, lines: seq<string>)
    ensures JoinLines([line] + lines) == line + "\n" + JoinLines(lines)
  {
    assert ([line] + lines)[1..] == lines;
  }

  lemma JoinThree(a: string, b: string, c: string)
    ensures JoinLines([a, b, c]) == a + "\n" + b + "\n" + c + "\n"
  {
    JoinCons(c, []);
    assert [b, c] == [b] + [c];
    JoinCons(b, [c]);
    assert [a, b, c] == [a] + [b, c];
    JoinCons(a, [b, c]);
  }

  lemma JoinSix(a: string, b: string, c: string, d: string, e: string, f: string)
    ensures JoinLines([a, b, c, d, e, f]) == a + "\n" + b + "\n" + c + "\n" + d + "\n" + e + "\n" + f + "\n"
  {
    assert [a, b, c, d, e, f] == [a, b, c] + [d, e, f];
    JoinLinesAppend([a, b, c], [d, e, f]);
    JoinThree(a, b, c);
    JoinThree(d, e, f);
  }

  lemma NoNewlineAppend(a: string, b: string)
    requires NoNewline(a) && NoNewline(b)
    ensures NoNewline(a + b)
  {
    assert forall c :: c in a + b ==> c in a || c in b;
  }

  /** The line of a `RedirectMatch` directive holds no newline when its
      fields hold none. */
  lemma RedirectMatchLinesSingle(code: string, pattern: string, destination: string)
    requires NoNewline(code) && NoNewline(pattern) && NoNewline(destination)
    ensures forall j :: 0 <= j < |RedirectMatchLines(code, pattern, destination)| ==>
      NoNewline(RedirectMatchLines(code, pattern, destination)[j])
  {
    assert NoNewline("RedirectMatch ") && NoNewline(" ^") && NoNewline("$ ");
    NoNewlineAppend("RedirectMatch ", code);
    NoNewlineAppend("RedirectMatch " + code, " ^");
    NoNewlineAppend("RedirectMatch " + code + " ^", pattern);
    NoNewlineAppend("RedirectMatch " + code + " ^" + pattern, "$ ");
    NoNewlineAppend("RedirectMatch " + code + " ^" + pattern + "$ ", destination);
  }

  /** The lines of a `mod_rewrite` block hold no newline when its fields
      hold none. */
  lemma RewriteBlockLinesSingle(code: string, pattern: string, query: string, destination: string)
    requires NoNewline(code) && NoNewline(pattern) && NoNewline(query) && NoNewline(destination)
    ensures forall j :: 0 <= j < |RewriteBlockLines(code, pattern, query, destination)| ==>
      NoNewline(RewriteBlockLines(code, pattern, query, destination)[j])
  {
    var lines := RewriteBlockLines(code, pattern, query, destination);
    assert NoNewline(lines[0]) && NoNewline(lines[1]) && NoNewline(lines[5]);
    ConditionLineSingle("RewriteCond %{REQUEST_URI} ^", pattern);
    ConditionLineSingle("RewriteCond %{QUERY_STRING} ^", query);
    RuleLineSingle(code, destination);
  }

  /** A condition line `prefix + value + "$"` holds no newline when neither
      `prefix` nor `value` does. */
  lemma ConditionLineSingle(prefix: string, value: string)
    requires NoNewline(prefix) && NoNewline(value)
    ensures NoNewline(prefix + value + "$")
  {
    NoNewlineAppend(prefix, value);
    NoNewlineAppend(prefix + value, "$");
  }

  /** The `RewriteRule` line holds no newline when its fields hold none. */
  lemma RuleLineSingle(code: string, destination: string)
    requires NoNewline(code) && NoNewline(destination)
    ensures NoNewline("RewriteRule ^(.*)$ " + destination + " [R=" + code + ",L,QSD]")
  {
    var d := "RewriteRule ^(.*)$ " + destination;
    assert NoNewline("RewriteRule ^(.*)$ ") && NoNewline(" [R=") && NoNewline(",L,QSD]");
    NoNewlineAppend("RewriteRule ^(.*)$ ", destination);
    NoNewlineAppend(d, " [R=");
    NoNewlineAppend(d + " [R=", code);
    NoNewlineAppend(d + " [R=" + code, ",L,QSD]");
  }

  /** Read back line by line, a `RedirectMatch` directive whose fields hold
      no newline is exactly one line, anchored with `^` and `$`. */
  lemma RedirectMatchRuleSplits(code: string, pattern: string, destination: string)
    requires NoNewline(code) && NoNewline(pattern) && NoNewline(destination)
    ensures SplitLines(RedirectMatchRule(code, pattern, destination))
      == ["RedirectMatch " + code + " ^" + pattern + "$ " + destination]
  {
    RedirectMatchRuleIsLines(code, pattern, destination);
    RedirectMatchLinesSingle(code, pattern, destination);
    SplitJoinLines(RedirectMatchLines(code, pattern, destination));
  }

  /** Read back line by line, a `mod_rewrite` block whose fields hold no
      newline is exactly its six lines. */
  lemma RewriteBlockRuleSplits(code: string, pattern: string, query: string, destination: string)
    requires NoNewline(code) && NoNewline(pattern) && NoNewline(query) && NoNewline(destination)
    ensures SplitLines(RewriteBlockRule(code, pattern, query, destination))
      == RewriteBlockLines(code, pattern, query, destination)
  {
    RewriteBlockRuleIsLines(code, pattern, query, destination);
    RewriteBlockLinesSingle(code, pattern, query, destination);
    SplitJoinLines(RewriteBlockLines(code, pattern, query, destination));
  }
}
