/**
 * `to_markdown`: turns raw answer text into display markdown in three passes.
 *   1. every bullet glyph becomes a markdown list marker;
 *   2. every fenced Python block is re-emitted between fences on lines of their own;
 *   3. a two-state scan over the lines quotes the text outside code blocks and passes
 *      the code inside them through untouched.
 */
module Markdown {
  import opened Wrappers
  import opened Strings

  const Bullet: char := '•'
  const ListMarker: string := "  * "

  // ---------------------------------------------------------------------------
  // Pass 1: `text.replace('•', '  * ')`
  // ---------------------------------------------------------------------------

  /** Every bullet becomes a list marker; every other character is kept. */
  function ReplaceBullets(s: string): string
  {
    if s == [] then []
    else (if s[0] == Bullet then ListMarker else [s[0]]) + ReplaceBullets(s[1..])
  }

  /**
   * No bullet is left, a character that neither is a bullet nor occurs in the list
   * marker is in the result exactly when it is in the input, and a text without
   * bullets is unchanged.
   */
  lemma {:induction false} ReplaceBulletsSpec(s: string)
    ensures Bullet !in ReplaceBullets(s)
    ensures forall c :: c != Bullet && c !in ListMarker ==> (c in ReplaceBullets(s) <==> c in s)
    ensures Bullet !in s ==> ReplaceBullets(s) == s
  {
    if s != [] {
      ReplaceBulletsSpec(s[1..]);
      var head := if s[0] == Bullet then ListMarker else [s[0]];
      assert ReplaceBullets(s) == head + ReplaceBullets(s[1..]);
      assert Bullet !in ListMarker;
      assert s == [s[0]] + s[1..];
    }
  }

  /** The replacement works character by character, so it distributes over concatenation. */
  lemma {:induction false} ReplaceBulletsConcat(a: string, b: string)
    ensures ReplaceBullets(a + b) == ReplaceBullets(a) + ReplaceBullets(b)
  {
    if a != [] {
      assert (a + b)[0] == a[0];
      assert (a + b)[1..] == a[1..] + b;
      ReplaceBulletsConcat(a[1..], b);
    } else {
      assert a + b == b;
    }
  }

  /**
   * `str.replace` read as split-then-join: cutting the text at its bullets and
   * gluing the pieces back with the list marker, in order, gives the replacement.
   */
  lemma {:induction false} ReplaceBulletsIsSplitJoin(s: string)
    ensures ReplaceBullets(s) == Join(Split(s, Bullet), ListMarker)
  {
    if s != [] {
      var rest := Split(s[1..], Bullet);
      ReplaceBulletsIsSplitJoin(s[1..]);
      assert s == [s[0]] + s[1..];
      SplitCons(s[0], s[1..], Bullet);
      if s[0] == Bullet {
        JoinConsEmpty(rest, ListMarker);
      } else {
        JoinConsChar(s[0], rest, ListMarker);
      }
    }
  }

  // ---------------------------------------------------------------------------
  // Pass 2: `re.sub(r"```python\n(.*?)\n```", preserve_code, text, flags=re.DOTALL)`
  // ---------------------------------------------------------------------------

  const OpenFence: string := "```python\n"
  const CloseFence: string := "\n```"

  /** The opening delimiter of the pattern starts at index `i` of `s`. */
  predicate OpenAt(s: string, i: int)
  {
    0 <= i && i + |OpenFence| <= |s| && s[i..i + |OpenFence|] == OpenFence
  }

  /** The closing delimiter of the pattern starts at index `i` of `s`. */
  predicate CloseAt(s: string, i: int)
  {
    0 <= i && i + |CloseFence| <= |s| && s[i..i + |CloseFence|] == CloseFence
  }

  /**
   * The first closing delimiter at or after `from`: where the lazy `(.*?)`, which may
   * match newlines under DOTALL, stops.
   */
  function FindClose(s: string, from: nat): (r: Option<nat>)
    decreases |s| - from
    ensures r.Some? ==> from <= r.value && CloseAt(s, r.value)
                        && forall j :: from <= j < r.value ==> !CloseAt(s, j)
    ensures r.None? ==> forall j :: from <= j ==> !CloseAt(s, j)
  {
    if from + |CloseFence| > |s| then None
    else if CloseAt(s, from) then Some(from)
    else FindClose(s, from + 1)
  }

  /** What `preserve_code` emits for a matched body: the body between fences on their own lines. */
  function Rewrap(body: string): string
  {
    "\n```python\n" + body + "\n```\n"
  }

  /**
   * The substitution as the regular-expression engine scans: at each position, a
   * match exists iff the opening delimiter starts there and a closing delimiter
   * follows it; the match ends at the first such closing delimiter and scanning
   * resumes right after it. Elsewhere a character is copied and the scan moves on.
   */
  function SubstituteFences(s: string): string
    decreases |s|
  {
    if s == [] then []
    else if OpenAt(s, 0) && FindClose(s, |OpenFence|).Some? then
      var q := FindClose(s, |OpenFence|).value;
      Rewrap(s[|OpenFence|..q]) + SubstituteFences(s[q + |CloseFence|..])
    else [s[0]] + SubstituteFences(s[1..])
  }

  /** Dropping the first character moves every delimiter one place to the left. */
  lemma ShiftAt(s: string, i: nat)
    requires s != []
    ensures OpenAt(s[1..], i) <==> OpenAt(s, i + 1)
    ensures CloseAt(s[1..], i) <==> CloseAt(s, i + 1)
  {
    if i + 1 + |OpenFence| <= |s| {
      assert s[1..][i..i + |OpenFence|] == s[i + 1..i + 1 + |OpenFence|];
    }
    if i + 1 + |CloseFence| <= |s| {
      assert s[1..][i..i + |CloseFence|] == s[i + 1..i + 1 + |CloseFence|];
    }
  }

  /**
   * Without an opening delimiter that some closing delimiter follows, the pattern
   * never matches and the text is left as it is; in particular an unterminated
   * ```` ```python ```` block passes through unchanged.
   */
  lemma {:induction false} SubstituteFencesIdentity(s: string)
    requires forall i, j :: OpenAt(s, i) && i + |OpenFence| <= j ==> !CloseAt(s, j)
    ensures SubstituteFences(s) == s
  {
    if s != [] {
      if OpenAt(s, 0) {
        assert FindClose(s, |OpenFence|).None?;
      }
      forall i, j | OpenAt(s[1..], i) && i + |OpenFence| <= j
        ensures !CloseAt(s[1..], j)
      {
        ShiftAt(s, i);
        ShiftAt(s, j);
      }
      SubstituteFencesIdentity(s[1..]);
      assert s == [s[0]] + s[1..];
    }
  }

  /** A body with no closing delimiter inside it ends at the delimiter that follows it. */
  lemma FirstCloseAfterBody(body: string, post: string)
    requires forall k :: !CloseAt(body, k)
    ensures FindClose(OpenFence + body + CloseFence + post, |OpenFence|)
            == Some(|OpenFence| + |body|)
  {
    var s := OpenFence + body + CloseFence + post;
    var q := |OpenFence| + |body|;
    assert s[q..q + |CloseFence|] == CloseFence;
    assert CloseAt(s, q);
    forall j | |OpenFence| <= j < q
      ensures !CloseAt(s, j)
    {
      if j + |CloseFence| <= q {
        assert s[j..j + |CloseFence|] == body[j - |OpenFence|..j - |OpenFence| + |CloseFence|];
        assert !CloseAt(body, j - |OpenFence|);
      } else {
        // the window holds, at one of its back-tick positions, the newline that
        // opens the closing delimiter
        assert s[q] == '\n' && CloseFence[q - j] == '`';
        assert j + |CloseFence| <= |s| ==> s[j..j + |CloseFence|][q - j] == '\n';
      }
    }
  }

  /** A match at the very start: the body is re-emitted and the scan resumes after it. */
  lemma SubstituteFencesAtOpen(body: string, post: string)
    requires forall k :: !CloseAt(body, k)
    ensures SubstituteFences(OpenFence + body + CloseFence + post)
            == Rewrap(body) + SubstituteFences(post)
  {
    var s := OpenFence + body + CloseFence + post;
    var q := |OpenFence| + |body|;
    assert s[..|OpenFence|] == OpenFence;
    assert OpenAt(s, 0);
    FirstCloseAfterBody(body, post);
    assert s[|OpenFence|..q] == body;
    assert s[q + |CloseFence|..] == post;
  }

  /**
   * A match of the pattern starts at `i`: the opening delimiter is there and a
   * closing delimiter follows it somewhere.
   */
  predicate MatchAt(s: string, i: nat)
  {
    OpenAt(s, i) && FindClose(s, i + |OpenFence|).Some?
  }

  /**
   * A character where no match starts is copied, whether or not an opening
   * delimiter starts there, and the scan moves on by one.
   */
  lemma SubstituteFencesNoOpen(s: string)
    requires s != [] && !MatchAt(s, 0)
    ensures SubstituteFences(s) == [s[0]] + SubstituteFences(s[1..])
  {
  }

  /** Whether a closing delimiter follows a position is unchanged by dropping the first character. */
  lemma FindCloseShift(s: string, from: nat)
    requires s != []
    ensures FindClose(s[1..], from).Some? <==> FindClose(s, from + 1).Some?
  {
    var r, r1 := FindClose(s[1..], from), FindClose(s, from + 1);
    if r.Some? {
      ShiftAt(s, r.value);
      assert CloseAt(s, r.value + 1);
    }
    if r1.Some? {
      ShiftAt(s, r1.value - 1);
      assert CloseAt(s[1..], r1.value - 1);
    }
  }

  /** No match starts before index `n` of `s`. */
  predicate NoMatchBefore(s: string, n: int)
  {
    forall i: nat :: i < n ==> !MatchAt(s, i)
  }

  /**
   * Text at which no match starts is copied as it is, even where it holds an
   * opening delimiter that no closing delimiter follows.
   */
  lemma {:induction false} SubstituteFencesCopiesPrefix(pre: string, rest: string)
    requires NoMatchBefore(pre + rest, |pre|)
    ensures SubstituteFences(pre + rest) == pre + SubstituteFences(rest)
  {
    var s := pre + rest;
    if pre == [] {
      assert s == rest;
    } else {
      assert !MatchAt(s, 0);
      SubstituteFencesNoOpen(s);
      forall i: nat | i < |pre| - 1 ensures !MatchAt(s[1..], i) {
        ShiftAt(s, i);
        FindCloseShift(s, i + |OpenFence|);
        assert !MatchAt(s, i + 1);
      }
      assert s[1..] == pre[1..] + rest;
      SubstituteFencesCopiesPrefix(pre[1..], rest);
      assert s[0] == pre[0];
      assert [pre[0]] + pre[1..] == pre;
    }
  }

  /**
   * The leftmost match: when no match starts before the first opening delimiter,
   * and the body holds no closing delimiter, the prefix is copied, the body is
   * re-emitted unchanged between fences on their own lines, and the scan resumes
   * after the closing delimiter.
   */
  lemma SubstituteFencesFirstMatch(pre: string, body: string, post: string)
    requires NoMatchBefore(pre + OpenFence + body + CloseFence + post, |pre|)
    requires forall k :: !CloseAt(body, k)
    ensures SubstituteFences(pre + OpenFence + body + CloseFence + post)
            == pre + Rewrap(body) + SubstituteFences(post)
  {
    var rest := OpenFence + body + CloseFence + post;
    assert pre + OpenFence + body + CloseFence + post == pre + rest;
    SubstituteFencesCopiesPrefix(pre, rest);
    SubstituteFencesAtOpen(body, post);
  }

  // ---------------------------------------------------------------------------
  // Pass 3: the line loop over `text.split("\n")`
  // ---------------------------------------------------------------------------

  /** `line.startswith("```")`: any fence line, whatever its language tag. */
  predicate IsFenceLine(line: string)
  {
    |line| >= 3 && line[0] == '`' && line[1] == '`' && line[2] == '`'
  }

  predicate NoFenceLines(lines: seq<string>)
  {
    forall k :: 0 <= k < |lines| ==> !IsFenceLine(lines[k])
  }

  /** The `inside_code_block` flag after one line. */
  function Toggle(line: string, inside: bool): bool
  {
    if IsFenceLine(line) then !inside else inside
  }

  /** The lines one input line contributes to `formatted_lines`. */
  function EmitLine(line: string, inside: bool): seq<string>
  {
    if IsFenceLine(line) || inside then [line]
    else if Strip(line) == [] then []
    else ["> " + Strip(line)]
  }

  /** The formatted lines for `lines`, starting with the flag `inside`. */
  function Render(lines: seq<string>, inside: bool): seq<string>
  {
    if lines == [] then []
    else EmitLine(lines[0], inside) + Render(lines[1..], Toggle(lines[0], inside))
  }

  /** The flag after reading `lines`, starting with the flag `inside`. */
  function After(lines: seq<string>, inside: bool): bool
  {
    if lines == [] then inside else After(lines[1..], Toggle(lines[0], inside))
  }

  /** The number of fence lines. */
  function FenceCount(lines: seq<string>): nat
  {
    if lines == [] then 0 else (if IsFenceLine(lines[0]) then 1 else 0) + FenceCount(lines[1..])
  }

  /**
   * Reference for the text outside any code block: the non-blank lines, stripped
   * and quoted, in order. Every line it yields is `"> "` and a non-empty stripped text.
   */
  function Blockquote(lines: seq<string>): seq<string>
  {
    if lines == [] then []
    else
      var t := Strip(lines[0]);
      (if t == [] then [] else ["> " + t]) + Blockquote(lines[1..])
  }

  /** Every quoted line is `"> "` and a non-empty stripped text, and no line is added. */
  lemma {:induction false} BlockquoteLines(lines: seq<string>)
    ensures var r := Blockquote(lines);
      && |r| <= |lines|
      && forall k :: 0 <= k < |r| ==>
           |r[k]| > 2 && r[k][0] == '>' && r[k][1] == ' ' && IsStripped(r[k][2..])
  {
    if lines != [] {
      BlockquoteLines(lines[1..]);
      var t := Strip(lines[0]);
      StripSpec(lines[0]);
      var head, rest := if t == [] then [] else ["> " + t], Blockquote(lines[1..]);
      assert Blockquote(lines) == head + rest;
      if t != [] {
        assert ("> " + t)[2..] == t;
      }
      forall k | 0 <= k < |head + rest|
        ensures var line := (head + rest)[k];
          |line| > 2 && line[0] == '>' && line[1] == ' ' && IsStripped(line[2..])
      {
        if k >= |head| {
          assert (head + rest)[k] == rest[k - |head|];
        }
      }
    }
  }

  /** The loop drops lines and never adds any. */
  lemma {:induction false} RenderLength(lines: seq<string>, inside: bool)
    ensures |Render(lines, inside)| <= |lines|
  {
    if lines != [] {
      RenderLength(lines[1..], Toggle(lines[0], inside));
    }
  }

  /** The flag ends on exactly when it started on and an even number of fence lines was seen, or vice versa. */
  lemma {:induction false} AfterParity(lines: seq<string>, inside: bool)
    ensures After(lines, inside) == (inside != (FenceCount(lines) % 2 == 1))
  {
    if lines != [] {
      AfterParity(lines[1..], Toggle(lines[0], inside));
    }
  }

  /** Rendering runs left to right: the second part starts with the flag the first part left. */
  lemma {:induction false} RenderAppend(a: seq<string>, b: seq<string>, inside: bool)
    ensures Render(a + b, inside) == Render(a, inside) + Render(b, After(a, inside))
    ensures After(a + b, inside) == After(b, After(a, inside))
  {
    if a != [] {
      assert (a + b)[0] == a[0];
      assert (a + b)[1..] == a[1..] + b;
      RenderAppend(a[1..], b, Toggle(a[0], inside));
    } else {
      assert a + b == b;
    }
  }

  /** Inside a code block, lines without a fence are emitted byte for byte and the flag stays on. */
  lemma {:induction false} RenderInside(lines: seq<string>)
    requires NoFenceLines(lines)
    ensures Render(lines, true) == lines
    ensures After(lines, true)
  {
    if lines != [] {
      RenderInside(lines[1..]);
      assert lines == [lines[0]] + lines[1..];
    }
  }

  /** Outside any code block, lines without a fence are blank-dropped, stripped and quoted. */
  lemma {:induction false} RenderOutside(lines: seq<string>)
    requires NoFenceLines(lines)
    ensures Render(lines, false) == Blockquote(lines)
    ensures !After(lines, false)
  {
    if lines != [] {
      RenderOutside(lines[1..]);
    }
  }

  /**
   * A code block opened outside any block: the fence lines and the lines between
   * them are emitted verbatim, and the text after the closing fence is rendered as
   * if the block had not been there.
   */
  lemma CodeBlockVerbatim(a: seq<string>, open: string, body: seq<string>, close: string,
                          c: seq<string>)
    requires !After(a, false)
    requires IsFenceLine(open) && IsFenceLine(close) && NoFenceLines(body)
    ensures Render(a + [open] + body + [close] + c, false)
            == Render(a, false) + [open] + body + [close] + Render(c, false)
  {
    var block := [open] + (body + ([close] + c));
    Regroup(a, open, body, close, c);
    RenderAppend(a, block, false);
    BlockRender(open, body, close, c);
    Regroup(Render(a, false), open, body, close, Render(c, false));
  }

  /** A block that opens and closes on fence lines renders verbatim, then the rest from outside. */
  lemma BlockRender(open: string, body: seq<string>, close: string, c: seq<string>)
    requires IsFenceLine(open) && IsFenceLine(close) && NoFenceLines(body)
    ensures Render([open] + (body + ([close] + c)), false)
            == [open] + (body + ([close] + Render(c, false)))
  {
    var tail := [close] + c;
    RenderFence(open, body + tail, false);
    RenderAppend(body, tail, true);
    RenderInside(body);
    RenderFence(close, c, true);
  }

  /** Regrouping a concatenation of five pieces. */
  lemma Regroup(p: seq<string>, x: string, q: seq<string>, y: string, t: seq<string>)
    ensures p + ([x] + (q + ([y] + t))) == p + [x] + q + [y] + t
  {
  }

  /**
   * An unterminated fence: everything after it is emitted verbatim up to the end of
   * the text, and the flag is still on at the end.
   */
  lemma UnterminatedFence(a: seq<string>, open: string, body: seq<string>)
    requires !After(a, false)
    requires IsFenceLine(open) && NoFenceLines(body)
    ensures Render(a + [open] + body, false) == Render(a, false) + [open] + body
    ensures After(a + [open] + body, false)
  {
    var block := [open] + body;
    assert a + [open] + body == a + block;
    RenderAppend(a, block, false);
    RenderFence(open, body, false);
    RenderInside(body);
  }

  /** A fence line is emitted as it is and flips the flag. */
  lemma RenderFence(open: string, rest: seq<string>, inside: bool)
    requires IsFenceLine(open)
    ensures Render([open] + rest, inside) == [open] + Render(rest, !inside)
    ensures After([open] + rest, inside) == After(rest, !inside)
  {
    assert ([open] + rest)[1..] == rest;
  }

  /**
   * One step of the scan keeps the loop's invariant: emitting the line at `i` onto
   * what was emitted before, and moving on with the updated flag, leaves the same
   * total.
   */
  lemma ScanStep(lines: seq<string>, i: nat, before: seq<string>, inside: bool)
    requires i < |lines|
    requires before + Render(lines[i..], inside) == Render(lines, false)
    requires After(lines[i..], inside) == After(lines, false)
    ensures (before + EmitLine(lines[i], inside)) + Render(lines[i + 1..], Toggle(lines[i], inside))
            == Render(lines, false)
    ensures After(lines[i + 1..], Toggle(lines[i], inside)) == After(lines, false)
  {
    assert lines[i..][1..] == lines[i + 1..];
    var emitted, rest := EmitLine(lines[i], inside), Render(lines[i + 1..], Toggle(lines[i], inside));
    assert Render(lines[i..], inside) == emitted + rest;
    assert before + (emitted + rest) == (before + emitted) + rest;
  }

  /**
   * The loop of `to_markdown` over the split lines: `formatted` is what it appends
   * to `formatted_lines`, `inside` the final `inside_code_block`.
   */
  method FormatLines(lines: seq<string>) returns (formatted: seq<string>, inside: bool)
    ensures formatted == Render(lines, false)
    ensures inside == After(lines, false)
  {
    formatted, inside := [], false;
    for i := 0 to |lines|
      invariant formatted + Render(lines[i..], inside) == Render(lines, false)
      invariant After(lines[i..], inside) == After(lines, false)
    {
      var line := lines[i];
      ScanStep(lines, i, formatted, inside);
      ghost var before, emitted := formatted, EmitLine(line, inside);
      ghost var next := Toggle(line, inside);
      if IsFenceLine(line) {
        inside := !inside;
        formatted := formatted + [line];
        assert formatted == before + emitted && inside == next;
        continue;
      }
      if !inside {
        var stripped := Strip(line);
        if stripped != [] {
          formatted := formatted + ["> " + stripped];
        }
      } else {
        formatted := formatted + [line];
      }
      assert formatted == before + emitted && inside == next;
    }
    assert lines[|lines|..] == [];
  }

  // ---------------------------------------------------------------------------
  // The whole formatter
  // ---------------------------------------------------------------------------

  /** The lines `to_markdown` joins with newlines. */
  function MarkdownLines(text: string): seq<string>
  {
    Render(Split(SubstituteFences(ReplaceBullets(text)), '\n'), false)
  }

  /** Neither rendering nor quoting puts a newline into a line. */
  lemma {:induction false} RenderNoNewline(lines: seq<string>, inside: bool)
    requires forall k :: 0 <= k < |lines| ==> '\n' !in lines[k]
    ensures forall k :: 0 <= k < |Render(lines, inside)| ==> '\n' !in Render(lines, inside)[k]
  {
    if lines != [] {
      var emitted := EmitLine(lines[0], inside);
      var rest := Render(lines[1..], Toggle(lines[0], inside));
      EmitNoNewline(lines[0], inside);
      RenderNoNewline(lines[1..], Toggle(lines[0], inside));
      assert Render(lines, inside) == emitted + rest;
      forall k | 0 <= k < |emitted + rest| ensures '\n' !in (emitted + rest)[k] {
        if k >= |emitted| {
          assert (emitted + rest)[k] == rest[k - |emitted|];
        }
      }
    }
  }

  /** One line emits no newline when it has none. */
  lemma EmitNoNewline(line: string, inside: bool)
    requires '\n' !in line
    ensures forall k :: 0 <= k < |EmitLine(line, inside)| ==> '\n' !in EmitLine(line, inside)[k]
  {
    if !IsFenceLine(line) && !inside && Strip(line) != [] {
      if '\n' in Strip(line) {
        StripChars(line, '\n');
      }
      assert '\n' !in "> ";
    }
  }

  /**
   * `to_markdown` without its display wrapper. The result is the formatted lines
   * joined with newlines, and when there is at least one line, splitting the
   * result at newlines gives those lines back.
   */
  method ToMarkdown(text: string) returns (formatted: string)
    ensures formatted == Join(MarkdownLines(text), "\n")
    ensures MarkdownLines(text) != [] ==> Split(formatted, '\n') == MarkdownLines(text)
  {
    var t := ReplaceBullets(text);
    t := SubstituteFences(t);
    var lines := Split(t, '\n');
    var formattedLines, _ := FormatLines(lines);
    formatted := Join(formattedLines, "\n");
    SplitSpec(t, '\n');
    RenderNoNewline(lines, false);
    if formattedLines != [] {
      SplitJoin(formattedLines, '\n');
    }
  }

  /**
   * No three back-ticks in a row: the text holds neither an opening delimiter nor
   * a fence line, though it may hold inline code spans.
   */
  predicate NoTripleTick(s: string)
  {
    forall i :: 0 <= i && i + 2 < |s| ==> !(s[i] == '`' && s[i + 1] == '`' && s[i + 2] == '`')
  }

  lemma NoTripleTickTail(s: string)
    requires s != [] && NoTripleTick(s)
    ensures NoTripleTick(s[1..])
  {
    forall i | 0 <= i && i + 2 < |s| - 1
      ensures !(s[1..][i] == '`' && s[1..][i + 1] == '`' && s[1..][i + 2] == '`')
    {
      assert s[1..][i] == s[i + 1] && s[1..][i + 1] == s[i + 2] && s[1..][i + 2] == s[i + 3];
    }
  }

  /** The opening delimiter starts with three back-ticks followed by `p`. */
  lemma OpenFenceChars()
    ensures |OpenFence| == 10
    ensures OpenFence[0] == '`' && OpenFence[1] == '`' && OpenFence[2] == '`' && OpenFence[3] == 'p'
  {
  }

  /** Text without three back-ticks in a row holds no opening delimiter. */
  lemma NoTripleTickNoOpen(t: string)
    requires NoTripleTick(t)
    ensures forall i :: !OpenAt(t, i)
  {
    OpenFenceChars();
    forall i | 0 <= i ensures !OpenAt(t, i) {
      if i + |OpenFence| <= |t| {
        var w := t[i..i + |OpenFence|];
        assert w[0] == t[i] && w[1] == t[i + 1] && w[2] == t[i + 2];
      }
    }
  }

  /** Text without three back-ticks in a row splits into lines none of which is a fence line. */
  lemma {:induction false} NoTripleTickLines(t: string)
    requires NoTripleTick(t)
    ensures NoFenceLines(Split(t, '\n'))
  {
    if t != [] {
      NoTripleTickTail(t);
      NoTripleTickLines(t[1..]);
      var rest, parts := Split(t[1..], '\n'), Split(t, '\n');
      SplitSpec(t, '\n');
      assert t == [t[0]] + t[1..];
      SplitCons(t[0], t[1..], '\n');
      forall k | 0 <= k < |parts| ensures !IsFenceLine(parts[k]) {
        if k == 0 {
          if |parts[0]| >= 3 {
            assert parts[0][0] == t[0] && parts[0][1] == t[1] && parts[0][2] == t[2];
          }
        } else if t[0] == '\n' {
          assert parts[k] == rest[k - 1];
        } else {
          assert parts[k] == rest[k];
        }
      }
    }
  }

  /** A back-tick that leads the replacement led the input and was kept. */
  lemma LeadingTick(u: string)
    ensures ReplaceBullets(u) != [] && ReplaceBullets(u)[0] == '`' ==>
              u != [] && u[0] == '`' && ReplaceBullets(u) == [u[0]] + ReplaceBullets(u[1..])
  {
  }

  /** The bullet pass creates no run of three back-ticks. */
  lemma {:induction false} ReplaceBulletsNoTripleTick(s: string)
    requires NoTripleTick(s)
    ensures NoTripleTick(ReplaceBullets(s))
  {
    if s != [] {
      NoTripleTickTail(s);
      ReplaceBulletsNoTripleTick(s[1..]);
      var head := if s[0] == Bullet then ListMarker else [s[0]];
      var rest := ReplaceBullets(s[1..]);
      var r := head + rest;
      assert ReplaceBullets(s) == r;
      assert '`' !in ListMarker;
      LeadingTick(s[1..]);
      if |s| > 1 {
        LeadingTick(s[2..]);
      }
      forall i | 0 <= i && i + 2 < |r| ensures !(r[i] == '`' && r[i + 1] == '`' && r[i + 2] == '`') {
        if i >= |head| {
          assert r[i] == rest[i - |head|] && r[i + 1] == rest[i + 1 - |head|] && r[i + 2] == rest[i + 2 - |head|];
        } else if s[0] == Bullet {
          assert r[i] == ListMarker[i];
        } else {
          assert r[1] == rest[0] && r[2] == rest[1];
        }
      }
    }
  }

  /**
   * Text without fences, that is without three back-ticks in a row (inline code
   * spans are allowed): every output line is `"> "` followed by a non-empty
   * stripped input line (after the bullet replacement), blank lines are dropped
   * and the order is kept.
   */
  lemma MarkdownPlainText(text: string)
    requires NoTripleTick(text)
    ensures MarkdownLines(text) == Blockquote(Split(ReplaceBullets(text), '\n'))
  {
    var t := ReplaceBullets(text);
    ReplaceBulletsNoTripleTick(text);
    NoTripleTickNoOpen(t);
    SubstituteFencesIdentity(t);
    NoTripleTickLines(t);
    RenderOutside(Split(t, '\n'));
  }

  /**
   * A text that holds no closing delimiter and does not start with a fence splits
   * into lines none of which is a fence line.
   */
  lemma SplitBodyNoFence(s: string)
    requires forall k :: !CloseAt(s, k)
    requires !IsFenceLine(s)
    ensures NoFenceLines(Split(s, '\n'))
  {
    var first := Split(s, '\n')[0];
    SplitSpec(s, '\n');
    if |first| >= 3 {
      assert first[0] == s[0] && first[1] == s[1] && first[2] == s[2];
    }
    SplitTailNoFence(s);
  }

  /** All lines but the first of a text with no closing delimiter are free of fences. */
  lemma {:induction false} SplitTailNoFence(s: string)
    requires forall k :: !CloseAt(s, k)
    ensures forall k :: 1 <= k < |Split(s, '\n')| ==> !IsFenceLine(Split(s, '\n')[k])
  {
    if s != [] {
      forall k | 0 <= k ensures !CloseAt(s[1..], k) {
        ShiftAt(s, k);
      }
      SplitTailNoFence(s[1..]);
      var rest := Split(s[1..], '\n');
      if s[0] == '\n' && IsFenceLine(rest[0]) {
        SplitSpec(s[1..], '\n');
        assert s[0..|CloseFence|] == CloseFence;
        assert CloseAt(s, 0);
      }
    }
  }

  /** The re-emitted block splits into its own fence lines around the lines of the body. */
  lemma SplitRewrap(p: string, body: string, q: string)
    ensures Split(p + Rewrap(body) + q, '\n')
            == Split(p, '\n') + ["```python"] + Split(body, '\n') + ["```"] + Split(q, '\n')
  {
    assert Rewrap(body) == "\n" + "```python" + "\n" + body + "\n" + "```" + "\n";
    SplitAround(p, "```python", body, "```", q);
  }

  /** Two separator-free lines framed by newlines split off as lines of their own. */
  lemma SplitAround(p: string, o: string, b: string, c: string, q: string)
    requires '\n' !in o && '\n' !in c
    ensures Split(p + ("\n" + o + "\n" + b + "\n" + c + "\n") + q, '\n')
            == Split(p, '\n') + [o] + Split(b, '\n') + [c] + Split(q, '\n')
  {
    var nl := ['\n'];
    var z := c + nl + q;
    var y := b + nl + z;
    var x := o + nl + y;
    assert p + ("\n" + o + "\n" + b + "\n" + c + "\n") + q == p + nl + x;
    SplitConcat(p, x, '\n');
    SplitConcat(o, y, '\n');
    SplitNoSeparator(o, '\n');
    SplitConcat(b, z, '\n');
    SplitConcat(c, q, '\n');
    SplitNoSeparator(c, '\n');
    Regroup(Split(p, '\n'), o, Split(b, '\n'), c, Split(q, '\n'));
  }

  /**
   * A Python block after plain text: the text before it is quoted line by line, the
   * fences come out on lines of their own with the body's lines verbatim between
   * them, and what follows the block is formatted as if it stood alone. The bullet
   * pass runs before the fence pass, so bullets inside the body are replaced too.
   */
  lemma MarkdownCodeBlock(pre: string, body: string, post: string)
    requires NoTripleTick(pre)
    requires forall k :: !CloseAt(body, k)
    requires !IsFenceLine(body)
    ensures MarkdownLines(pre + OpenFence + body + CloseFence + post)
            == Blockquote(Split(ReplaceBullets(pre), '\n'))
               + ["```python"] + Split(ReplaceBullets(body), '\n') + ["```"] + MarkdownLines(post)
  {
    var p, b, q := ReplaceBullets(pre), ReplaceBullets(body), SubstituteFences(ReplaceBullets(post));
    ReplaceBulletsNoTripleTick(pre);
    ReplaceBulletsNoClose(body);
    ReplaceBulletsFenceLine(body);
    SplitBlock(pre, body, post);
    RenderBlock(p, b, q);
  }

  /** After the first two passes, the block's text splits into quoted-text lines, the block and the rest. */
  lemma SplitBlock(pre: string, body: string, post: string)
    requires NoTripleTick(pre)
    requires forall k :: !CloseAt(body, k)
    ensures var p, q := ReplaceBullets(pre), SubstituteFences(ReplaceBullets(post));
      Split(SubstituteFences(ReplaceBullets(pre + OpenFence + body + CloseFence + post)), '\n')
      == Split(p, '\n') + ["```python"] + Split(ReplaceBullets(body), '\n') + ["```"] + Split(q, '\n')
  {
    SubstituteBlock(pre, body, post);
    SplitRewrap(ReplaceBullets(pre), ReplaceBullets(body), SubstituteFences(ReplaceBullets(post)));
  }

  /** The line loop over plain text, a block with no fence inside, and any rest. */
  lemma RenderBlock(p: string, body: string, q: string)
    requires NoTripleTick(p)
    requires forall k :: !CloseAt(body, k)
    requires !IsFenceLine(body)
    ensures var before, lines, after := Split(p, '\n'), Split(body, '\n'), Split(q, '\n');
      Render(before + ["```python"] + lines + ["```"] + after, false)
      == Blockquote(before) + ["```python"] + lines + ["```"] + Render(after, false)
  {
    var before, lines, after := Split(p, '\n'), Split(body, '\n'), Split(q, '\n');
    NoTripleTickLines(p);
    RenderOutside(before);
    SplitBodyNoFence(body);
    RewrapFenceLines();
    CodeBlockVerbatim(before, "```python", lines, "```", after);
  }

  /** Both lines a re-emitted block puts around its body are fence lines. */
  lemma RewrapFenceLines()
    ensures IsFenceLine("```python") && IsFenceLine("```")
  {
  }

  /**
   * The first two passes on a Python block after plain text: the body is re-emitted
   * with its bullets already replaced.
   */
  lemma SubstituteBlock(pre: string, body: string, post: string)
    requires NoTripleTick(pre)
    requires forall k :: !CloseAt(body, k)
    ensures SubstituteFences(ReplaceBullets(pre + OpenFence + body + CloseFence + post))
            == ReplaceBullets(pre) + Rewrap(ReplaceBullets(body)) + SubstituteFences(ReplaceBullets(post))
  {
    var p, b, tail := ReplaceBullets(pre), ReplaceBullets(body), ReplaceBullets(post);
    ReplaceBulletsNoTripleTick(pre);
    ReplaceBulletsBlock(pre, body, post);
    ReplaceBulletsNoClose(body);
    NoMatchInPrefix(p, b + CloseFence + tail);
    assert p + OpenFence + (b + CloseFence + tail) == p + OpenFence + b + CloseFence + tail;
    SubstituteFencesFirstMatch(p, b, tail);
  }

  /**
   * No match starts inside text without three back-ticks in a row, even when an
   * opening delimiter follows it directly.
   */
  lemma NoMatchInPrefix(p: string, rest: string)
    requires NoTripleTick(p)
    ensures NoMatchBefore(p + OpenFence + rest, |p|)
  {
    var s := p + OpenFence + rest;
    OpenFenceChars();
    forall i: nat | i < |p| ensures !OpenAt(s, i) {
      var w := s[i..i + |OpenFence|];
      if i + 2 < |p| {
        assert w[0] == p[i] && w[1] == p[i + 1] && w[2] == p[i + 2];
      } else {
        assert w[3] == OpenFence[i + 3 - |p|];
      }
    }
  }

  /** The bullet pass leaves the delimiters alone and works on each part around them. */
  lemma ReplaceBulletsBlock(pre: string, body: string, post: string)
    ensures ReplaceBullets(pre + OpenFence + body + CloseFence + post)
            == ReplaceBullets(pre) + OpenFence + ReplaceBullets(body) + CloseFence + ReplaceBullets(post)
  {
    ReplaceBulletsConcat(pre + OpenFence + body + CloseFence, post);
    ReplaceBulletsConcat(pre + OpenFence + body, CloseFence);
    ReplaceBulletsConcat(pre + OpenFence, body);
    ReplaceBulletsConcat(pre, OpenFence);
    DelimitersKeepBullets();
  }

  /** A text starts with a closing delimiter iff a newline precedes a fence line. */
  lemma CloseAtFront(s: string)
    ensures CloseAt(s, 0) <==> s != [] && s[0] == '\n' && IsFenceLine(s[1..])
  {
    assert CloseFence == ['\n', '`', '`', '`'];
    if |s| >= |CloseFence| {
      var w := s[0..|CloseFence|];
      assert w[0] == s[0] && w[1] == s[1] && w[2] == s[2] && w[3] == s[3];
    }
  }

  /** The bullet pass makes no line start a fence: three leading back-ticks were there before. */
  lemma ReplaceBulletsFenceLine(u: string)
    ensures IsFenceLine(ReplaceBullets(u)) ==> IsFenceLine(u)
  {
    if IsFenceLine(ReplaceBullets(u)) {
      LeadingTick(u);
      LeadingTick(u[1..]);
      assert u[1..][1..] == u[2..];
      LeadingTick(u[2..]);
    }
  }

  /** The bullet pass creates no closing delimiter. */
  lemma {:induction false} ReplaceBulletsNoClose(s: string)
    requires forall k :: !CloseAt(s, k)
    ensures forall k :: !CloseAt(ReplaceBullets(s), k)
  {
    if s != [] {
      forall k | 0 <= k ensures !CloseAt(s[1..], k) {
        ShiftAt(s, k);
      }
      ReplaceBulletsNoClose(s[1..]);
      var head := if s[0] == Bullet then ListMarker else [s[0]];
      var rest := ReplaceBullets(s[1..]);
      var r := head + rest;
      assert ReplaceBullets(s) == r;
      forall k | 0 <= k ensures !CloseAt(r, k) {
        if k >= |head| {
          assert !CloseAt(rest, k - |head|);
          if k + |CloseFence| <= |r| {
            assert r[k..k + |CloseFence|] == rest[k - |head|..k - |head| + |CloseFence|];
          }
        } else if s[0] == Bullet {
          assert r[k] == ListMarker[k] != '\n';
          if k + |CloseFence| <= |r| {
            assert r[k..k + |CloseFence|][0] == r[k];
          }
        } else {
          CloseAtFront(r);
          CloseAtFront(s);
          assert r[1..] == rest;
          ReplaceBulletsFenceLine(s[1..]);
        }
      }
    }
  }

  /** The two delimiters hold no bullet, so the bullet pass leaves them alone. */
  lemma DelimitersKeepBullets()
    ensures ReplaceBullets(OpenFence) == OpenFence && ReplaceBullets(CloseFence) == CloseFence
  {
    ReplaceBulletsSpec(OpenFence);
    ReplaceBulletsSpec(CloseFence);
  }
}
