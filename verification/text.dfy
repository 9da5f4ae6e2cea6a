/**
 * The Python string operations the pipeline relies on: `strip`, `lstrip`,
 * `rstrip`, `startswith`, lower-casing and substring search; and the lines of
 * a text, through which the layout of the exported Markdown is stated.
 */
module Text {

  /** Python's `str.isspace` for one character: the characters `str.strip()` removes. */
  predicate IsSpace(c: char) {
    c == ' ' || ('\t' <= c <= '\r') || ('\U{1C}' <= c <= '\U{1F}')
    || c == '\U{85}' || c == '\U{A0}' || c == '\U{1680}'
    || ('\U{2000}' <= c <= '\U{200A}') || c == '\U{2028}' || c == '\U{2029}'
    || c == '\U{202F}' || c == '\U{205F}' || c == '\U{3000}'
  }

  predicate IsSlash(c: char) {
    c == '/'
  }

  /** Empty or made of whitespace only. */
  predicate IsBlank(s: string) {
    forall i | 0 <= i < |s| :: IsSpace(s[i])
  }

  /** `s.lstrip(chars)`: drop every leading character that `drop` accepts. */
  function LStrip(s: string, drop: char -> bool): (r: string)
    ensures |r| <= |s| && r == s[|s| - |r|..]
    ensures forall i | 0 <= i < |s| - |r| :: drop(s[i])
    ensures r == [] || !drop(r[0])
  {
    if |s| > 0 && drop(s[0]) then LStrip(s[1..], drop) else s
  }

  /** `s.rstrip(chars)`: drop every trailing character that `drop` accepts. */
  function RStrip(s: string, drop: char -> bool): (r: string)
    ensures |r| <= |s| && r == s[..|r|]
    ensures forall i | |r| <= i < |s| :: drop(s[i])
    ensures r == [] || !drop(r[|r| - 1])
  {
    if |s| > 0 && drop(s[|s| - 1]) then RStrip(s[..|s| - 1], drop) else s
  }

  /** `s.strip()`. */
  function Strip(s: string): string {
    RStrip(LStrip(s, IsSpace), IsSpace)
  }

  /** `not s.strip()` holds exactly of the blank strings. */
  lemma StripEmptyIff(s: string)
    ensures Strip(s) == [] <==> IsBlank(s)
  {
    var l := LStrip(s, IsSpace);
    if IsBlank(s) && l != [] {
      assert false;
    }
  }

  function StartsWith(s: string, prefix: string): bool {
    |prefix| <= |s| && s[..|prefix|] == prefix
  }

  /** One character lower-cased (ASCII letters only). */
  function LowerChar(c: char): char {
    if 'A' <= c <= 'Z' then (c as int + 32) as char else c
  }

  function Lower(s: string): (r: string)
    ensures |r| == |s|
    ensures forall i | 0 <= i < |s| :: r[i] == LowerChar(s[i])
  {
    seq(|s|, i requires 0 <= i < |s| => LowerChar(s[i]))
  }

  /** Literal substring search: `needle` occurs in `s`, tried at each position. */
  function Contains(s: string, needle: string): (found: bool)
    ensures found ==> |needle| <= |s|
    ensures needle == [] ==> found
    decreases |s|
  {
    StartsWith(s, needle) || (|s| > 0 && Contains(s[1..], needle))
  }

  /** `needle` occurs in `s` starting at index `i`. */
  predicate OccursAt(s: string, needle: string, i: nat) {
    i + |needle| <= |s| && s[i..i + |needle|] == needle
  }

  /** `Contains` agrees with the positional definition of "occurs in". */
  lemma {:induction false} ContainsIff(s: string, needle: string)
    ensures Contains(s, needle) <==> exists i: nat :: OccursAt(s, needle, i)
    decreases |s|
  {
    if StartsWith(s, needle) {
      assert OccursAt(s, needle, 0);
    } else if |s| == 0 {
    } else {
      ContainsIff(s[1..], needle);
      if Contains(s[1..], needle) {
        var i: nat :| OccursAt(s[1..], needle, i);
        assert s[i + 1..i + 1 + |needle|] == s[1..][i..i + |needle|];
        assert OccursAt(s, needle, i + 1);
      } else {
        forall i: nat ensures !OccursAt(s, needle, i) {
          if i > 0 && OccursAt(s, needle, i) {
            var j: nat := i - 1;
            forall k | 0 <= k < |needle| ensures s[1..][j..j + |needle|][k] == needle[k] {
              assert s[1..][j..j + |needle|][k] == s[i + k] == s[i..i + |needle|][k];
            }
            assert s[1..][j..j + |needle|] == needle;
            assert OccursAt(s[1..], needle, j);
          }
        }
      }
    }
  }

  /**
   * The lines of `s`, as `s.split("\n")` would give them; a trailing line
   * break leaves a final empty line.
   */
  function Lines(s: string): (r: seq<string>)
    ensures |r| >= 1
  {
    if s == [] then [""] else StartLine(s[0], Lines(s[1..]))
  }

  /** The lines of `[c] + s` from those of `s`: a break opens a new line, any other character joins the first. */
  function StartLine(c: char, lines: seq<string>): (r: seq<string>)
    requires |lines| >= 1
    ensures |r| >= 1
  {
    if c == '\n' then [""] + lines else [[c] + lines[0]] + lines[1..]
  }

  /** `s` holds no line break. */
  predicate OneLine(s: string) {
    '\n' !in s
  }

  /** A text without a line break is one line. */
  lemma {:induction false} LinesSingle(s: string)
    requires '\n' !in s
    ensures Lines(s) == [s]
    decreases |s|
  {
    if s != [] {
      assert '\n' !in s[1..] by {
        forall i | 0 <= i < |s[1..]| ensures s[1..][i] != '\n' {
          assert s[1..][i] == s[i + 1];
        }
      }
      LinesSingle(s[1..]);
      assert [s[0]] + s[1..] == s;
    }
  }

  /** Starting a line in front of more lines leaves the lines after them as they were. */
  lemma StartLineAppend(c: char, first: seq<string>, second: seq<string>)
    requires |first| >= 1
    ensures StartLine(c, first + second) == StartLine(c, first) + second
  {
    if c != '\n' {
      assert (first + second)[1..] == first[1..] + second;
    }
  }

  /** Two texts joined by a line break split into the lines of the first, then those of the second. */
  lemma {:induction false} LinesAppend(a: string, b: string)
    ensures Lines(a + "\n" + b) == Lines(a) + Lines(b)
    decreases |a|
  {
    var s := a + "\n" + b;
    if a == [] {
      assert s[1..] == b;
    } else {
      assert s[0] == a[0] && s[1..] == a[1..] + "\n" + b;
      LinesAppend(a[1..], b);
      StartLineAppend(a[0], Lines(a[1..]), Lines(b));
    }
  }

  /** A line with no line break in it, followed by a break, splits off as the first line. */
  lemma LinesCons(line: string, rest: string)
    requires '\n' !in line
    ensures Lines(line + "\n" + rest) == [line] + Lines(rest)
  {
    LinesAppend(line, rest);
    LinesSingle(line);
  }
}
