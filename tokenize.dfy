/**
 * tokenize (src/common/file_crawler.cpp): the words of a path that go into
 * the full-text index. Separators (white space and - _ . / \ ( ) [ ] { })
 * end a word; an upper-case letter ends a word and starts the next one;
 * every letter is stored in lower case; empty words are dropped.
 *
 * The words are characterised without reference to the scan: a word is the
 * lower-case form of a maximal run of the input, a stretch of non-separators
 * that starts at the beginning, after a separator or at an upper-case letter,
 * has no upper-case letter after its first character, and stops at the end,
 * at a separator or at an upper-case letter.
 */
module Tokenizer {
  /** isspace in the C locale: space, \t, \n, \v, \f, \r. */
  predicate IsSpace(c: char)
  {
    c == ' ' || 9 <= c as int <= 13
  }

  /** The characters that only end the current word. */
  predicate IsSeparator(c: char)
  {
    IsSpace(c) || c == '-' || c == '_' || c == '.' || c == '/' || c == '\\'
    || c == '(' || c == ')' || c == '[' || c == ']' || c == '{' || c == '}'
  }

  /** isupper in the C locale. */
  predicate IsUpper(c: char)
  {
    'A' <= c <= 'Z'
  }

  /** tolower in the C locale. */
  function ToLower(c: char): (r: char)
    ensures !IsUpper(r)
    ensures IsSeparator(r) <==> IsSeparator(c)
  {
    if IsUpper(c) then (c as int + 32) as char else c
  }

  /** The string with every letter in lower case. */
  function Lower(s: string): (r: string)
    ensures |r| == |s|
    ensures forall k :: 0 <= k < |s| ==> r[k] == ToLower(s[k])
  {
    if s == [] then [] else [ToLower(s[0])] + Lower(s[1..])
  }

  /** A word may start at `i`. */
  ghost predicate StartsRun(s: string, i: nat)
    requires i < |s|
  {
    i == 0 || IsSeparator(s[i - 1]) || IsUpper(s[i])
  }

  /** A word that reaches `j` stops there. */
  ghost predicate EndsRun(s: string, j: nat)
    requires j <= |s|
  {
    j == |s| || IsSeparator(s[j]) || IsUpper(s[j])
  }

  /** From `i` up to `j`, a word could still grow: no separator, and no upper-case letter after the first. */
  ghost predicate Open(s: string, i: nat, j: nat)
    requires i <= j <= |s|
  {
    (forall k :: i <= k < j ==> !IsSeparator(s[k])) && (forall k :: i < k < j ==> !IsUpper(s[k]))
  }

  /** `s[i..j]` is a maximal run: one word of `s`. */
  ghost predicate Run(s: string, i: nat, j: nat)
  {
    i < j <= |s| && StartsRun(s, i) && EndsRun(s, j) && Open(s, i, j)
  }

  /** The words of `s`. */
  ghost function Tokens(s: string): set<string>
  {
    set i: nat, j: nat | i < j <= |s| && Run(s, i, j) :: Lower(s[i..j])
  }

  /** The words that end before position `n`. */
  ghost function Closed(s: string, n: nat): set<string>
  {
    set i: nat, j: nat | i < j < n && j <= |s| && Run(s, i, j) :: Lower(s[i..j])
  }

  /** The scan state after `n` characters: the current word starts at `start`. */
  ghost predicate Scanned(s: string, n: nat, start: nat)
  {
    start <= n <= |s|
    && (start < n ==> StartsRun(s, start) && Open(s, start, n))
    && (start == n <==> n == 0 || IsSeparator(s[n - 1]))
  }

  /** Inside a stretch that could still grow, no position is a start of a word. */
  lemma OpenInside(s: string, i: nat, n: nat, k: nat)
    requires i <= n <= |s|
    ensures Open(s, i, n) && i < k < n ==> !StartsRun(s, k)
  {
  }

  /** Only one word can end at `n`: the one that starts where the scan's current word started. */
  lemma RunStart(s: string, n: nat, start: nat, i: nat)
    requires Scanned(s, n, start) && i < n && Run(s, i, n)
    ensures i == start
  {
    OpenInside(s, i, n, start);
    OpenInside(s, start, n, i);
  }

  /** One character of the scan: a word is completed exactly when a current word meets a separator or an upper-case letter. */
  lemma ClosedStep(s: string, n: nat, start: nat)
    requires Scanned(s, n, start) && n < |s|
    ensures Closed(s, n + 1)
         == Closed(s, n) + (if start < n && EndsRun(s, n) then {Lower(s[start..n])} else {})
  {
    var extra := if start < n && EndsRun(s, n) then {Lower(s[start..n])} else {};
    forall x | x in Closed(s, n + 1) ensures x in Closed(s, n) + extra {
      var i: nat, j: nat :| i < j < n + 1 && j <= |s| && Run(s, i, j) && x == Lower(s[i..j]);
      if j == n {
        RunStart(s, n, start, i);
      } else {
        assert x in Closed(s, n);
      }
    }
    if start < n && EndsRun(s, n) {
      assert Run(s, start, n);
      assert Lower(s[start..n]) in Closed(s, n + 1);
    }
  }

  /** At the end of the input the last current word, if any, is the last word. */
  lemma ClosedEnd(s: string, start: nat)
    requires Scanned(s, |s|, start)
    ensures Tokens(s) == Closed(s, |s|) + (if start < |s| then {Lower(s[start..])} else {})
  {
    var n := |s|;
    var extra := if start < n then {Lower(s[start..])} else {};
    forall x | x in Tokens(s) ensures x in Closed(s, n) + extra {
      var i: nat, j: nat :| i < j <= n && Run(s, i, j) && x == Lower(s[i..j]);
      if j == n {
        RunStart(s, n, start, i);
        assert s[i..j] == s[start..];
      } else {
        assert x in Closed(s, n);
      }
    }
    if start < n {
      assert Run(s, start, n);
      assert s[start..n] == s[start..];
      assert Lower(s[start..n]) in Tokens(s);
    }
  }

  lemma LowerSnoc(s: string, c: char)
    ensures Lower(s + [c]) == Lower(s) + [ToLower(c)]
  {
  }

  /** The loop state of tokenize after `n` characters: the current word and the words pushed so far. */
  ghost predicate State(s: string, n: nat, start: nat, cur: string, tokens: set<string>)
  {
    Scanned(s, n, start) && cur == Lower(s[start..n]) && tokens == Closed(s, n)
  }

  /** The words pushed when the current word is completed. */
  function Push(tokens: set<string>, cur: string): set<string>
  {
    if cur != [] then tokens + {cur} else tokens
  }

  /** A separator completes the current word, if any, and the next word can only start after it. */
  lemma SeparatorStep(s: string, n: nat, start: nat, cur: string, tokens: set<string>)
    requires State(s, n, start, cur, tokens) && n < |s| && IsSeparator(s[n])
    ensures State(s, n + 1, n + 1, [], Push(tokens, cur))
  {
    ClosedStep(s, n, start);
  }

  /** An upper-case letter completes the current word, if any, and starts the next one. */
  lemma UpperStep(s: string, n: nat, start: nat, cur: string, tokens: set<string>)
    requires State(s, n, start, cur, tokens) && n < |s| && IsUpper(s[n])
    ensures State(s, n + 1, n, [ToLower(s[n])], Push(tokens, cur))
  {
    ClosedStep(s, n, start);
    assert s[n..n + 1] == [s[n]];
  }

  /** Any other character extends the current word. */
  lemma PlainStep(s: string, n: nat, start: nat, cur: string, tokens: set<string>)
    requires State(s, n, start, cur, tokens) && n < |s| && !IsSeparator(s[n]) && !IsUpper(s[n])
    ensures State(s, n + 1, start, cur + [ToLower(s[n])], tokens)
  {
    ClosedStep(s, n, start);
    assert s[start..n + 1] == s[start..n] + [s[n]];
    LowerSnoc(s[start..n], s[n]);
  }

  /** At the end of the input the last current word, if any, is the last word. */
  lemma EndStep(s: string, start: nat, cur: string, tokens: set<string>)
    requires State(s, |s|, start, cur, tokens)
    ensures Push(tokens, cur) == Tokens(s)
  {
    ClosedEnd(s, start);
    assert s[start..|s|] == s[start..];
  }

  /**
   * tokenize: the words of `str`. `cur` is the current word, pushed when it
   * is not empty.
   */
  method Tokenize(str: string) returns (tokens: set<string>)
    ensures tokens == Tokens(str)
  {
    tokens := {};
    var cur := "";
    ghost var start: nat := 0;
    for i := 0 to |str|
      invariant State(str, i, start, cur, tokens)
    {
      var c := str[i];
      if IsSeparator(c) {
        SeparatorStep(str, i, start, cur, tokens);
        if cur != [] {
          tokens := tokens + {cur};
        }
        cur := [];
        start := i + 1;
      } else if IsUpper(c) {
        UpperStep(str, i, start, cur, tokens);
        if cur != [] {
          tokens := tokens + {cur};
        }
        cur := [ToLower(c)];
        start := i;
      } else {
        PlainStep(str, i, start, cur, tokens);
        cur := cur + [ToLower(c)];
      }
    }
    EndStep(str, start, cur, tokens);
    if cur != [] {
      tokens := tokens + {cur};
    }
  }

  /** No word is empty, and no word holds a separator or an upper-case letter. */
  lemma {:induction false} TokenShape(s: string, t: string)
    requires t in Tokens(s)
    ensures t != []
    ensures forall k :: 0 <= k < |t| ==> !IsSeparator(t[k]) && !IsUpper(t[k])
  {
    var i: nat, j: nat :| i < j <= |s| && Run(s, i, j) && t == Lower(s[i..j]);
    forall k | 0 <= k < |t| ensures !IsSeparator(t[k]) && !IsUpper(t[k]) {
      assert t[k] == ToLower(s[i + k]);
    }
  }

  /** Every word is the lower-case form of a piece of the input that holds no separator. */
  lemma {:induction false} TokenSource(s: string, t: string)
    requires t in Tokens(s)
    ensures exists i: nat, j: nat :: i < j <= |s| && t == Lower(s[i..j])
                                      && forall k :: i <= k < j ==> !IsSeparator(s[k])
  {
    var i: nat, j: nat :| i < j <= |s| && Run(s, i, j) && t == Lower(s[i..j]);
  }

  /** The characters of the example "MyFile.TAR". */
  lemma ExampleChars(s: string)
    requires s == "MyFile.TAR"
    ensures |s| == 10
    ensures s[0] == 'M' && s[1] == 'y' && s[2] == 'F' && s[3] == 'i' && s[4] == 'l'
    ensures s[5] == 'e' && s[6] == '.' && s[7] == 'T' && s[8] == 'A' && s[9] == 'R'
  {
  }

  /** The runs of "MyFile.TAR": My, File, T, A and R. */
  lemma ExampleRun(s: string, i: nat, j: nat)
    requires s == "MyFile.TAR" && i < j <= |s|
    ensures Run(s, i, j) <==> ((i == 0 && j == 2) || (i == 2 && j == 6) || (i == 7 && j == 8)
                               || (i == 8 && j == 9) || (i == 9 && j == 10))
  {
    ExampleChars(s);
    assert i < 2 < j ==> IsUpper(s[2]);
    assert i < 6 < j ==> IsSeparator(s[6]);
    assert i < 7 < j ==> IsUpper(s[7]);
    assert i < 8 < j ==> IsUpper(s[8]);
    assert i < 9 < j ==> IsUpper(s[9]);
    assert i <= 6 < j ==> IsSeparator(s[6]);
  }

  /** An example: "MyFile.TAR" gives my, file, t, a and r; an upper-case run is split letter by letter. */
  lemma TokensExample()
    ensures Tokens("MyFile.TAR") == {"my", "file", "t", "a", "r"}
  {
    var s := "MyFile.TAR";
    ExampleChars(s);
    assert s[0..2] == "My" && s[2..6] == "File" && s[7..8] == "T" && s[8..9] == "A" && s[9..10] == "R";
    assert Lower("My") == "my" && Lower("File") == "file";
    assert Lower("T") == "t" && Lower("A") == "a" && Lower("R") == "r";
    var expected: set<string> := {"my", "file", "t", "a", "r"};
    forall x | x in Tokens(s) ensures x in expected {
      var i: nat, j: nat :| i < j <= |s| && Run(s, i, j) && x == Lower(s[i..j]);
      ExampleRun(s, i, j);
    }
    ExampleRun(s, 0, 2);
    ExampleRun(s, 2, 6);
    ExampleRun(s, 7, 8);
    ExampleRun(s, 8, 9);
    ExampleRun(s, 9, 10);
  }
}
