/**
 * The string handling `add_meeting` applies to the initial agenda text:
 * Python's `str.split('\n')`, `str.strip()` and the non-blank filter.
 */
module Text {
  import opened Outcomes

  /** The code points Python's `str.isspace()` accepts. */
  const SpaceChars: seq<char> := [
    ' ', '\t', '\n', '\U{000B}', '\U{000C}', '\r', '\U{001C}', '\U{001D}', '\U{001E}', '\U{001F}',
    '\U{0085}', '\U{00A0}', '\U{1680}', '\U{2000}', '\U{2001}', '\U{2002}', '\U{2003}', '\U{2004}',
    '\U{2005}', '\U{2006}', '\U{2007}', '\U{2008}', '\U{2009}', '\U{200A}', '\U{2028}', '\U{2029}',
    '\U{202F}', '\U{205F}', '\U{3000}']

  /**
   * `c` is one of `chars`. Written as a recursion so that the solver unfolds
   * the whitespace table only where a proof needs it.
   */
  predicate OneOf(c: char, chars: seq<char>) {
    |chars| > 0 && (c == chars[0] || OneOf(c, chars[1..]))
  }

  /** Python's `str.isspace()` for one code point. */
  predicate IsSpace(c: char) {
    OneOf(c, SpaceChars)
  }

  predicate AllSpace(s: string) {
    forall i :: 0 <= i < |s| ==> IsSpace(s[i])
  }

  /** How many white-space characters `s` starts with. */
  function LeadingSpace(s: string): (n: nat)
    ensures n <= |s|
    ensures forall k :: 0 <= k < n ==> IsSpace(s[k])
    ensures n < |s| ==> !IsSpace(s[n])
  {
    if |s| > 0 && IsSpace(s[0]) then
      var n := LeadingSpace(s[1..]);
      assert forall k :: 1 <= k < n + 1 ==> s[k] == s[1..][k - 1];
      n + 1
    else 0
  }

  /** How many white-space characters `s` ends with. */
  function TrailingSpace(s: string): (n: nat)
    ensures n <= |s|
    ensures forall k :: |s| - n <= k < |s| ==> IsSpace(s[k])
    ensures n < |s| ==> !IsSpace(s[|s| - 1 - n])
  {
    if |s| > 0 && IsSpace(s[|s| - 1]) then
      var n := TrailingSpace(s[..|s| - 1]);
      assert forall k :: |s| - 1 - n <= k < |s| - 1 ==> s[k] == s[..|s| - 1][k];
      n + 1
    else 0
  }

  /** Neither end of `t` is white space. */
  predicate Stripped(t: string) {
    |t| == 0 || (!IsSpace(t[0]) && !IsSpace(t[|t| - 1]))
  }

  /**
   * Python's `str.strip()`: the slice of `s` left once the leading and then
   * the trailing white space are removed.
   */
  function Strip(s: string): string {
    s[LeadingSpace(s)..StripEnd(s)]
  }

  /** Where `Strip(s)` ends inside `s`. */
  function StripEnd(s: string): (j: nat)
    ensures LeadingSpace(s) <= j <= |s|
  {
    |s| - TrailingSpace(s[LeadingSpace(s)..])
  }

  /** Everything `Strip` drops from the end of `s` is white space. */
  lemma StripDropsTrailing(s: string)
    ensures forall k :: StripEnd(s) <= k < |s| ==> IsSpace(s[k])
  {
    var i := LeadingSpace(s);
    var t := s[i..];
    forall k | StripEnd(s) <= k < |s|
      ensures IsSpace(s[k])
    {
      assert s[k] == t[k - i];
    }
  }

  /** `Strip(s)` neither starts nor ends with white space. */
  lemma StripStripped(s: string)
    ensures Stripped(Strip(s))
  {
    var i := LeadingSpace(s);
    var t := s[i..];
    var r := Strip(s);
    if |r| > 0 {
      assert r[0] == s[i];
      assert r[|r| - 1] == t[|t| - 1 - TrailingSpace(t)];
    }
  }

  /**
   * `Strip(s)` is `s[i..j]` where everything before `i` and from `j` on is
   * white space, and it neither starts nor ends with white space.
   */
  lemma StripShape(s: string)
    ensures var i := LeadingSpace(s); var j := StripEnd(s);
      && Strip(s) == s[i..j]
      && (forall k :: 0 <= k < i ==> IsSpace(s[k]))
      && (forall k :: j <= k < |s| ==> IsSpace(s[k]))
    ensures Stripped(Strip(s))
  {
    StripDropsTrailing(s);
    StripStripped(s);
  }

  /** `Strip(s)` is empty exactly when `s` is blank: the `if clean_item` test. */
  lemma StripEmptyIffBlank(s: string)
    ensures |Strip(s)| == 0 <==> AllSpace(s)
  {
    StripShape(s);
    var i := LeadingSpace(s);
    if |Strip(s)| != 0 {
      assert s[i] == Strip(s)[0];
    }
  }

  /** Stripping twice strips nothing more. */
  lemma StripIdempotent(s: string)
    ensures Strip(Strip(s)) == Strip(s)
  {
    var r := Strip(s);
    StripShape(s);
    assert LeadingSpace(r) == 0;
    assert r[0..] == r;
    assert TrailingSpace(r) == 0;
  }

  /** Every character of `Strip(s)` comes from `s`. */
  lemma StripInside(s: string)
    ensures forall c :: c in Strip(s) ==> c in s
  {
    StripShape(s);
  }

  /**
   * Python's `s.split('\n')`: the pieces between newlines, at least one,
   * none containing a newline.
   */
  function Split(s: string): (r: seq<string>)
    ensures |r| >= 1
  {
    if |s| == 0 then [""]
    else
      var rest := Split(s[1..]);
      if s[0] == '\n' then [""] + rest
      else [[s[0]] + rest[0]] + rest[1..]
  }

  /** No piece of a split holds a newline. */
  lemma {:induction false} SplitPiecesSingleLine(s: string)
    ensures forall t :: t in Split(s) ==> '\n' !in t
  {
    if |s| > 0 {
      SplitPiecesSingleLine(s[1..]);
      var rest := Split(s[1..]);
      if s[0] != '\n' {
        assert '\n' !in [s[0]] + rest[0];
        assert forall t :: t in rest[1..] ==> t in rest;
      }
    }
  }

  /** `'\n'.join(parts)`. */
  function Join(parts: seq<string>): string
    requires |parts| >= 1
  {
    if |parts| == 1 then parts[0] else parts[0] + "\n" + Join(parts[1..])
  }

  /** Joining the pieces of a split gives back the text. */
  lemma {:induction false} JoinSplit(s: string)
    ensures Join(Split(s)) == s
  {
    if |s| > 0 {
      var rest := Split(s[1..]);
      JoinSplit(s[1..]);
      if s[0] == '\n' {
        assert Split(s)[1..] == rest;
      } else {
        var head := [s[0]] + rest[0];
        assert Split(s) == [head] + rest[1..];
        if |rest| > 1 {
          assert ([head] + rest[1..])[1..] == rest[1..];
          assert Join(rest) == rest[0] + "\n" + Join(rest[1..]);
        }
      }
    }
  }

  /** How `Split` treats the first character of a non-empty text. */
  lemma SplitCons(c: char, t: string)
    ensures Split([c] + t) ==
              if c == '\n' then [""] + Split(t) else [[c] + Split(t)[0]] + Split(t)[1..]
  {
    assert ([c] + t)[1..] == t;
  }

  /** Putting a character in front of the first piece commutes with appending more pieces. */
  lemma ReplaceHeadAppend(c: char, ra: seq<string>, rb: seq<string>)
    requires |ra| >= 1
    ensures [[c] + (ra + rb)[0]] + (ra + rb)[1..] == ([[c] + ra[0]] + ra[1..]) + rb
  {
    assert (ra + rb)[0] == ra[0];
    assert (ra + rb)[1..] == ra[1..] + rb;
  }

  /** One step of `SplitConcat`: putting a character in front of both sides. */
  lemma SplitConsConcat(c: char, a: string, b: string)
    requires Split(a + "\n" + b) == Split(a) + Split(b)
    ensures Split([c] + (a + "\n" + b)) == Split([c] + a) + Split(b)
  {
    SplitCons(c, a);
    SplitCons(c, a + "\n" + b);
    if c != '\n' {
      ReplaceHeadAppend(c, Split(a), Split(b));
    }
  }

  /** Splitting at a newline splits the two sides independently. */
  lemma {:induction false} SplitConcat(a: string, b: string)
    ensures Split(a + "\n" + b) == Split(a) + Split(b)
  {
    if |a| == 0 {
      assert a + "\n" + b == ['\n'] + b;
      SplitCons('\n', b);
    } else {
      SplitConcat(a[1..], b);
      assert a == [a[0]] + a[1..];
      assert a + "\n" + b == [a[0]] + (a[1..] + "\n" + b);
      SplitConsConcat(a[0], a[1..], b);
    }
  }

  /** A text without newlines is one piece. */
  lemma {:induction false} SplitLine(line: string)
    requires '\n' !in line
    ensures Split(line) == [line]
  {
    if |line| > 0 {
      assert '\n' !in line[1..] by {
        forall k | 0 <= k < |line[1..]| ensures line[1..][k] != '\n' {
          assert line[1..][k] == line[k + 1];
        }
      }
      SplitLine(line[1..]);
      assert [line[0]] + line[1..] == line;
    }
  }

  /** Splitting a join of newline-free pieces gives back the pieces. */
  lemma {:induction false} SplitJoin(parts: seq<string>)
    requires |parts| >= 1
    requires forall k :: 0 <= k < |parts| ==> '\n' !in parts[k]
    ensures Split(Join(parts)) == parts
  {
    SplitLine(parts[0]);
    if |parts| > 1 {
      SplitJoin(parts[1..]);
      SplitConcat(parts[0], Join(parts[1..]));
    }
  }

  /** The stripped non-blank lines, in order: the loop of `add_meeting` over the split text. */
  function NonBlankLines(lines: seq<string>): (r: seq<string>)
    ensures |r| <= |lines|
    ensures forall k :: 0 <= k < |r| ==> |r[k]| > 0
  {
    if |lines| == 0 then []
    else
      var t := Strip(lines[0]);
      var rest := NonBlankLines(lines[1..]);
      if |t| == 0 then rest else [t] + rest
  }

  /** Each kept line is already stripped. */
  lemma {:induction false} NonBlankLinesStripped(lines: seq<string>)
    ensures forall t :: t in NonBlankLines(lines) ==> Stripped(t)
  {
    if |lines| > 0 {
      NonBlankLinesStripped(lines[1..]);
      StripShape(lines[0]);
    }
  }

  /** Kept lines hold no newline when the input lines hold none. */
  lemma {:induction false} NonBlankLinesSingleLine(lines: seq<string>)
    requires forall k :: 0 <= k < |lines| ==> '\n' !in lines[k]
    ensures forall t :: t in NonBlankLines(lines) ==> '\n' !in t
  {
    if |lines| > 0 {
      NonBlankLinesSingleLine(lines[1..]);
      StripInside(lines[0]);
    }
  }

  lemma {:induction false} NonBlankLinesAppend(a: seq<string>, b: seq<string>)
    ensures NonBlankLines(a + b) == NonBlankLines(a) + NonBlankLines(b)
  {
    if |a| == 0 {
      assert a + b == b;
    } else {
      assert (a + b)[1..] == a[1..] + b;
      NonBlankLinesAppend(a[1..], b);
    }
  }

  /**
   * The agenda titles `add_meeting` creates from the optional initial agenda
   * text: none for a missing or empty text, otherwise the stripped non-blank
   * lines of the text in order. No title is empty, padded or multi-line.
   */
  function AgendaTitles(text: Option<string>): (r: seq<string>)
    ensures text == None || text == Some("") ==> r == []
    ensures forall k :: 0 <= k < |r| ==> |r[k]| > 0
  {
    if text == None || text == Some("") then [] else NonBlankLines(Split(text.value))
  }

  /** Every agenda title is already stripped and holds no newline. */
  lemma AgendaTitlesClean(text: Option<string>)
    ensures forall t :: t in AgendaTitles(text) ==> Stripped(t) && '\n' !in t
  {
    if text.Some? && text != Some("") {
      NonBlankLinesStripped(Split(text.value));
      SplitPiecesSingleLine(text.value);
      NonBlankLinesSingleLine(Split(text.value));
    }
  }

  /** The `if agenda_text` guard changes nothing: an empty text has no non-blank line. */
  lemma AgendaTitlesOfText(text: string)
    ensures AgendaTitles(Some(text)) == NonBlankLines(Split(text))
  {
    if text == "" {
      assert Split(text) == [""];
      StripEmptyIffBlank("");
    }
  }

  /** A single line yields its stripped form as the only title, or nothing when blank. */
  lemma AgendaTitlesOfLine(line: string)
    requires '\n' !in line
    ensures AgendaTitles(Some(line)) == if AllSpace(line) then [] else [Strip(line)]
  {
    AgendaTitlesOfText(line);
    SplitLine(line);
    StripEmptyIffBlank(line);
  }

  /** The titles of two newline-joined texts are the titles of each, in order. */
  lemma AgendaTitlesOfJoin(a: string, b: string)
    ensures AgendaTitles(Some(a + "\n" + b)) == AgendaTitles(Some(a)) + AgendaTitles(Some(b))
  {
    AgendaTitlesOfText(a + "\n" + b);
    AgendaTitlesOfText(a);
    AgendaTitlesOfText(b);
    SplitConcat(a, b);
    NonBlankLinesAppend(Split(a), Split(b));
  }

  /** Prepending one line before a newline prepends its title, if any. */
  lemma AgendaTitlesCons(line: string, rest: string, titles: seq<string>)
    requires '\n' !in line
    requires AgendaTitles(Some(rest)) == titles
    ensures AgendaTitles(Some(line + "\n" + rest)) ==
              (if AllSpace(line) then [] else [Strip(line)]) + titles
  {
    AgendaTitlesOfLine(line);
    AgendaTitlesOfJoin(line, rest);
  }

  /** The titles of newline-free lines joined by newlines are their stripped non-blank forms. */
  lemma AgendaTitlesOfLines(lines: seq<string>)
    requires |lines| >= 1
    requires forall k :: 0 <= k < |lines| ==> '\n' !in lines[k]
    ensures AgendaTitles(Some(Join(lines))) == NonBlankLines(lines)
  {
    AgendaTitlesOfText(Join(lines));
    SplitJoin(lines);
  }

  /**
   * A kept title is the stripped form of some non-blank line, and every
   * non-blank line contributes its stripped form.
   */
  lemma {:induction false} NonBlankLinesMembers(lines: seq<string>)
    ensures forall t :: t in NonBlankLines(lines) <==> exists p :: p in lines && !AllSpace(p) && t == Strip(p)
  {
    if |lines| > 0 {
      NonBlankLinesMembers(lines[1..]);
      NonBlankLinesCons(lines[0], lines[1..]);
      assert lines == [lines[0]] + lines[1..];
      forall t | t in NonBlankLines(lines)
        ensures exists p :: p in lines && !AllSpace(p) && t == Strip(p)
      {
        if !AllSpace(lines[0]) && t == Strip(lines[0]) {
          assert lines[0] in lines;
        } else {
          var p :| p in lines[1..] && !AllSpace(p) && t == Strip(p);
          assert p in lines;
        }
      }
      forall p | p in lines && !AllSpace(p)
        ensures Strip(p) in NonBlankLines(lines)
      {
        if p != lines[0] {
          assert p in lines[1..];
        }
      }
    }
  }

  /**
   * The agenda titles of a text are exactly the stripped forms of its
   * non-blank lines.
   */
  lemma AgendaTitlesMembers(text: string)
    ensures forall t :: t in AgendaTitles(Some(text)) <==>
              exists p :: p in Split(text) && !AllSpace(p) && t == Strip(p)
  {
    AgendaTitlesOfText(text);
    NonBlankLinesMembers(Split(text));
  }

  /** The first line contributes its stripped form, unless it is blank. */
  lemma NonBlankLinesCons(line: string, rest: seq<string>)
    ensures NonBlankLines([line] + rest) ==
              (if AllSpace(line) then [] else [Strip(line)]) + NonBlankLines(rest)
  {
    assert ([line] + rest)[1..] == rest;
    StripEmptyIffBlank(line);
  }
}
