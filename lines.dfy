/** The post-processing `generate_litellm_queries` applies to the model's
    reply: split it into lines and keep, unmodified and in order, the lines
    whose `strip()` is non-empty. */
module Lines {

  /** Python's `str.isspace` for one character: the characters `strip()`
      with no argument removes. */
  predicate IsWhitespace(c: char)
  {
    c == ' ' || ('\t' <= c <= '\r') || ('\U{1C}' <= c <= '\U{1F}')
    || c == '\U{85}' || c == '\U{A0}' || c == '\U{1680}'
    || ('\U{2000}' <= c <= '\U{200A}') || c == '\U{2028}' || c == '\U{2029}'
    || c == '\U{202F}' || c == '\U{205F}' || c == '\U{3000}'
  }

  /** A line made only of whitespace (the empty line included). */
  predicate IsBlank(s: string)
  {
    forall i :: 0 <= i < |s| ==> IsWhitespace(s[i])
  }

  /** `s.lstrip()`: the suffix of `s` that starts at its first
      non-whitespace character. */
  function StripLeading(s: string): (r: string)
    ensures |r| <= |s| && r == s[|s| - |r|..]
    ensures forall i :: 0 <= i < |s| - |r| ==> IsWhitespace(s[i])
    ensures r != [] ==> !IsWhitespace(r[0])
  {
    if s != [] && IsWhitespace(s[0]) then StripLeading(s[1..]) else s
  }

  /** `s.rstrip()`: the prefix of `s` that ends at its last non-whitespace
      character. */
  function StripTrailing(s: string): (r: string)
    ensures |r| <= |s| && r == s[..|r|]
    ensures forall i :: |r| <= i < |s| ==> IsWhitespace(s[i])
    ensures r != [] ==> !IsWhitespace(r[|r| - 1])
  {
    if s != [] && IsWhitespace(s[|s| - 1]) then StripTrailing(s[..|s| - 1]) else s
  }

  /** `s.strip()` */
  function Strip(s: string): string
  {
    StripTrailing(StripLeading(s))
  }

  /** `strip()` leaves nothing exactly when the line is all whitespace; so the
      filter's test `x.strip()` is true exactly for non-blank lines. */
  lemma StripEmptyIffBlank(s: string)
    ensures Strip(s) == [] <==> IsBlank(s)
  {
  }

  /** The filter's test `x.strip()` as a truth value. */
  predicate HasContent(line: string)
  {
    Strip(line) != []
  }

  /** `list(filter(lambda x: x.strip(), lines))` */
  function KeepNonBlank(lines: seq<string>): seq<string>
  {
    if lines == [] then []
    else if HasContent(lines[0]) then [lines[0]] + KeepNonBlank(lines[1..])
    else KeepNonBlank(lines[1..])
  }

  /** Filtering a concatenation filters each part: the kept lines stay in
      their original order. */
  lemma {:induction false} KeepNonBlankAppend(a: seq<string>, b: seq<string>)
    ensures KeepNonBlank(a + b) == KeepNonBlank(a) + KeepNonBlank(b)
  {
    if a == [] {
      assert a + b == b;
    } else {
      assert (a + b)[0] == a[0];
      assert (a + b)[1..] == a[1..] + b;
      KeepNonBlankAppend(a[1..], b);
    }
  }

  /** Every kept line is non-blank. */
  lemma {:induction false} KeptLinesNonBlank(lines: seq<string>)
    ensures forall k :: 0 <= k < |KeepNonBlank(lines)| ==> !IsBlank(KeepNonBlank(lines)[k])
  {
    if lines != [] {
      var rest := KeepNonBlank(lines[1..]);
      KeptLinesNonBlank(lines[1..]);
      if HasContent(lines[0]) {
        StripEmptyIffBlank(lines[0]);
        assert KeepNonBlank(lines) == [lines[0]] + rest;
      } else {
        assert KeepNonBlank(lines) == rest;
      }
    }
  }

  /** Each non-blank line is kept, unmodified, as often as it occurs, and
      no blank line is kept: blank lines are the only ones dropped. */
  lemma {:induction false} KeepNonBlankCounts(lines: seq<string>)
    ensures forall x :: multiset(KeepNonBlank(lines))[x] == if IsBlank(x) then 0 else multiset(lines)[x]
  {
    if lines != [] {
      var rest := KeepNonBlank(lines[1..]);
      KeepNonBlankCounts(lines[1..]);
      StripEmptyIffBlank(lines[0]);
      assert lines == [lines[0]] + lines[1..];
      assert multiset(lines) == multiset{lines[0]} + multiset(lines[1..]);
      if HasContent(lines[0]) {
        assert multiset(KeepNonBlank(lines)) == multiset{lines[0]} + multiset(rest);
      }
    }
  }

  /** A list with no blank line passes the filter unchanged. */
  lemma {:induction false} KeepNonBlankIdentity(lines: seq<string>)
    requires forall k :: 0 <= k < |lines| ==> !IsBlank(lines[k])
    ensures KeepNonBlank(lines) == lines
  {
    if lines != [] {
      StripEmptyIffBlank(lines[0]);
      KeepNonBlankIdentity(lines[1..]);
    }
  }

  /** `t.split("\n")`: the pieces between newline characters; always at
      least one piece. */
  function Split(t: string): (r: seq<string>)
    ensures |r| >= 1
    ensures forall k :: 0 <= k < |r| ==> '\n' !in r[k]
  {
    if t == [] then [[]]
    else
      var rest := Split(t[1..]);
      if t[0] == '\n' then [[]] + rest else [[t[0]] + rest[0]] + rest[1..]
  }

  /** `"\n".join(pieces)` */
  function Join(pieces: seq<string>): string
  {
    if pieces == [] then []
    else if |pieces| == 1 then pieces[0]
    else pieces[0] + "\n" + Join(pieces[1..])
  }

  /** Joining the pieces with newlines gives back the text. */
  lemma {:induction false} JoinSplit(t: string)
    ensures Join(Split(t)) == t
  {
    if t != [] {
      JoinSplit(t[1..]);
      var rest := Split(t[1..]);
      if t[0] != '\n' {
        if |rest| == 1 {
          assert Join(Split(t)) == [t[0]] + rest[0];
        } else {
          assert Join(Split(t)) == [t[0]] + rest[0] + "\n" + Join(rest[1..]);
        }
      }
    }
  }

  /** Splitting text that ends in a newline gives one more, empty, piece. */
  lemma {:induction false} SplitNewlineTerminated(u: string)
    ensures Split(u + "\n") == Split(u) + [[]]
  {
    if u != [] {
      assert (u + "\n")[1..] == u[1..] + "\n";
      SplitNewlineTerminated(u[1..]);
    }
  }

  /** `t.splitlines()`, with the newline character as the only line
      boundary: no line for the empty text, and no empty last line after a
      final newline. */
  function SplitLines(t: string): seq<string>
  {
    if t == [] then []
    else if t[|t| - 1] == '\n' then Split(t[..|t| - 1])
    else Split(t)
  }

  /** Lines hold no newline, and joining them (with the final newline, if the
      text had one) gives back the text. */
  lemma SplitLinesSpec(t: string)
    ensures forall k :: 0 <= k < |SplitLines(t)| ==> '\n' !in SplitLines(t)[k]
    ensures SplitLines(t) == [] <==> t == []
    ensures t != [] && t[|t| - 1] == '\n' ==> Join(SplitLines(t)) + "\n" == t
    ensures t != [] && t[|t| - 1] != '\n' ==> Join(SplitLines(t)) == t
  {
    if t != [] {
      if t[|t| - 1] == '\n' {
        JoinSplit(t[..|t| - 1]);
        assert t[..|t| - 1] + "\n" == t;
      } else {
        JoinSplit(t);
      }
    }
  }

  /** The search queries read off a reply: the non-blank lines of
      `text.splitlines()`. */
  function NonBlankLines(text: string): seq<string>
  {
    KeepNonBlank(SplitLines(text))
  }

  /** Where the line boundary convention differs from `split("\n")` (the
      empty text, a final newline) it only adds or removes an empty piece,
      which the filter drops anyway. */
  lemma NonBlankLinesOfSplit(text: string)
    ensures NonBlankLines(text) == KeepNonBlank(Split(text))
  {
    if text == [] {
      assert KeepNonBlank(Split(text)) == KeepNonBlank([[]]) == [];
    } else if text[|text| - 1] == '\n' {
      var u := text[..|text| - 1];
      assert u + "\n" == text;
      SplitNewlineTerminated(u);
      KeepNonBlankAppend(Split(u), [[]]);
    }
  }
}
