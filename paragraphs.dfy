/**
  The `paragraphs` text normaliser: it turns an indented triple-quoted literal
  into running text.  Each stage of the pipeline is one function:

    Mask            "\a\n" becomes the placeholder Mark (a hard break)
    RStrip          trailing whitespace goes
    LStripNewlines  leading newlines go
    Dedent          the common leading indentation goes
    CollapseNewlines  runs of two or more newlines become exactly two
    SpaceSolitary   every newline that stands alone becomes a space
    Unmask          every Mark becomes a newline

  Characters are those of a Python 2 byte string, so "whitespace" is the
  ASCII set " \t\n\v\f\r".
*/
module Paragraphs {
  import opened Wrappers

  /** BEL, which in front of a newline marks a hard line break. */
  const Bell: char := '\U{7}'
  /** The placeholder a hard break is masked as while the text is reflowed. */
  const Mark: char := '\U{1}'

  /** Python 2 `str.isspace` on one byte. */
  predicate IsSpace(c: char) {
    c == ' ' || '\t' <= c <= '\r'
  }

  /** The characters of the regular expression class `[ \t]`. */
  predicate IsIndentChar(c: char) {
    c == ' ' || c == '\t'
  }

  // ---------------------------------------------------------------------
  // Visible text: what is left after removing all whitespace
  // ---------------------------------------------------------------------

  /** The non-whitespace characters of `s`, in order. */
  function Visible(s: string): string {
    if s == [] then [] else (if IsSpace(s[0]) then [] else [s[0]]) + Visible(s[1..])
  }

  lemma {:induction false} VisibleConcat(a: string, b: string)
    ensures Visible(a + b) == Visible(a) + Visible(b)
  {
    if a == [] {
      assert a + b == b;
    } else {
      assert (a + b)[1..] == a[1..] + b;
      VisibleConcat(a[1..], b);
    }
  }

  lemma {:induction false} VisibleOfSpaces(w: string)
    requires forall i :: 0 <= i < |w| ==> IsSpace(w[i])
    ensures Visible(w) == []
  {
    if w != [] {
      VisibleOfSpaces(w[1..]);
    }
  }

  /** Two strings that differ only where both hold whitespace look the same. */
  lemma {:induction false} SameVisible(a: string, b: string)
    requires |a| == |b|
    requires forall i :: 0 <= i < |a| ==> a[i] == b[i] || (IsSpace(a[i]) && IsSpace(b[i]))
    ensures Visible(a) == Visible(b)
  {
    if a != [] {
      SameVisible(a[1..], b[1..]);
    }
  }

  /** Removing a prefix and a suffix of whitespace does not change what is visible. */
  lemma {:induction false} VisibleSlice(s: string, i: nat, j: nat)
    requires i <= j <= |s|
    requires forall k :: 0 <= k < i ==> IsSpace(s[k])
    requires forall k :: j <= k < |s| ==> IsSpace(s[k])
    ensures Visible(s[i..j]) == Visible(s)
  {
    VisibleSplit(s, i, j);
    VisibleOfSpaces(s[..i]);
    VisibleOfSpaces(s[j..]);
  }

  lemma {:induction false} VisibleSplit(s: string, i: nat, j: nat)
    requires i <= j <= |s|
    ensures Visible(s) == Visible(s[..i]) + Visible(s[i..j]) + Visible(s[j..])
  {
    var pre, mid, post := s[..i], s[i..j], s[j..];
    var tail := mid + post;
    assert s == pre + tail;
    VisibleConcat(pre, tail);
    VisibleConcat(mid, post);
  }

  // ---------------------------------------------------------------------
  // Masking hard breaks (core.py:36 and core.py:45)
  // ---------------------------------------------------------------------

  /** No BEL immediately followed by a newline. */
  predicate NoHardBreak(s: string) {
    forall i :: 0 <= i < |s| - 1 ==> !(s[i] == Bell && s[i + 1] == '\n')
  }

  /** `re.sub(r"\a\n", "\x01", s)`: every BEL-newline pair, scanned from the left, becomes Mark. */
  function Mask(s: string): (r: string)
    ensures NoHardBreak(r)
    ensures s != [] ==> r != [] && (r[0] == s[0] || r[0] == Mark)
  {
    if |s| >= 2 && s[0] == Bell && s[1] == '\n' then [Mark] + Mask(s[2..])
    else if s == [] then []
    else [s[0]] + Mask(s[1..])
  }

  /** The inverse of Mask: every Mark is spelt out again as BEL-newline. */
  function Expand(s: string): (r: string)
    ensures s != [] ==> r != [] && (r[0] == '\n' <==> s[0] == '\n')
  {
    if s == [] then []
    else (if s[0] == Mark then [Bell, '\n'] else [s[0]]) + Expand(s[1..])
  }

  /** Masking loses nothing when the text holds no Mark of its own. */
  lemma {:induction false} ExpandMask(s: string)
    requires Mark !in s
    ensures Expand(Mask(s)) == s
  {
    if |s| >= 2 && s[0] == Bell && s[1] == '\n' {
      assert Mark !in s[2..] by { assert forall c :: c in s[2..] ==> c in s; }
      ExpandMask(s[2..]);
      assert Mask(s) == [Mark] + Mask(s[2..]);
      assert (Expand([Mark] + Mask(s[2..]))) == [Bell, '\n'] + Expand(Mask(s[2..])) by {
        assert ([Mark] + Mask(s[2..]))[1..] == Mask(s[2..]);
      }
      assert s == [Bell, '\n'] + s[2..];
    } else if s != [] {
      assert Mark !in s[1..] by { assert forall c :: c in s[1..] ==> c in s; }
      ExpandMask(s[1..]);
      assert ([s[0]] + Mask(s[1..]))[1..] == Mask(s[1..]);
      assert s == [s[0]] + s[1..];
    }
  }

  /** Spelling the hard breaks out and masking them again gives the text back. */
  lemma {:induction false} MaskExpand(t: string)
    requires NoHardBreak(t)
    ensures Mask(Expand(t)) == t
  {
    if t != [] {
      assert NoHardBreak(t[1..]) by {
        forall i | 0 <= i < |t[1..]| - 1 ensures !(t[1..][i] == Bell && t[1..][i + 1] == '\n') {
          assert t[1..][i] == t[i + 1] && t[1..][i + 1] == t[i + 2];
        }
      }
      MaskExpand(t[1..]);
      var e := Expand(t[1..]);
      if t[0] == Mark {
        assert Expand(t) == [Bell, '\n'] + e;
        assert (Expand(t))[2..] == e;
      } else {
        assert Expand(t) == [t[0]] + e;
        assert (Expand(t))[1..] == e;
        if t[0] == Bell && e != [] {
          assert t[1] != '\n';
          assert e[0] != '\n';
        }
      }
    }
  }

  /** `re.sub(r"\x01", "\n", s)`: every Mark becomes a newline. */
  function Unmask(s: string): (r: string)
    ensures |r| == |s|
  {
    seq(|s|, i requires 0 <= i < |s| => if s[i] == Mark then '\n' else s[i])
  }

  /** Text without a BEL has nothing to mask. */
  lemma {:induction false} MaskUnchanged(s: string)
    requires Bell !in s
    ensures Mask(s) == s
  {
    if s != [] {
      assert Bell !in s[1..] by {
        forall k | 0 <= k < |s[1..]| ensures s[1..][k] != Bell {
          assert s[1..][k] == s[k + 1];
        }
      }
      MaskUnchanged(s[1..]);
    }
  }

  /** `Unmask` turns exactly the Marks into newlines and keeps every other character. */
  lemma {:induction false} UnmaskNewlines(r: string)
    ensures var p := Unmask(r);
      && |p| == |r|
      && (forall i :: 0 <= i < |p| ==> (p[i] == '\n' <==> r[i] == '\n' || r[i] == Mark))
      && (forall i :: 0 <= i < |p| && r[i] != Mark ==> p[i] == r[i])
  {
  }

  /** Text without a Mark is left alone by Unmask. */
  lemma {:induction false} UnmaskUnchanged(r: string)
    requires Mark !in r
    ensures Unmask(r) == r
  {
  }

  /** Unmasking works character by character. */
  lemma {:induction false} UnmaskConcat(a: string, b: string)
    ensures Unmask(a + b) == Unmask(a) + Unmask(b)
  {
  }

  /**
    What is visible after unmasking depends only on what was visible before:
    the whitespace of the input plays no part.
  */
  lemma {:induction false} VisibleUnmask(s: string)
    ensures Visible(Unmask(s)) == Visible(Unmask(Visible(s)))
  {
    if s != [] {
      var c, rest := s[..1], s[1..];
      assert s == c + rest;
      VisibleUnmask(rest);
      UnmaskConcat(c, rest);
      VisibleConcat(Unmask(c), Unmask(rest));
      if IsSpace(s[0]) {
        assert Unmask(c) == c;
        assert Visible(c) == [] by {
          assert c[1..] == [];
        }
        assert Visible(s) == Visible(rest);
      } else {
        assert Visible(s) == c + Visible(rest);
        UnmaskConcat(c, Visible(rest));
        VisibleConcat(Unmask(c), Unmask(Visible(rest)));
      }
    }
  }

  // ---------------------------------------------------------------------
  // Stripping (core.py:37)
  // ---------------------------------------------------------------------

  /** `s.rstrip()`: the longest prefix of `s` that does not end in whitespace. */
  function RStrip(s: string): (r: string)
    ensures r <= s
    ensures r == [] || !IsSpace(r[|r| - 1])
    ensures forall i :: |r| <= i < |s| ==> IsSpace(s[i])
  {
    if s != [] && IsSpace(s[|s| - 1]) then RStrip(s[..|s| - 1]) else s
  }

  /** `s.lstrip('\n')`: the longest suffix of `s` that does not start with a newline. */
  function LStripNewlines(s: string): (r: string)
    ensures |r| <= |s| && r == s[|s| - |r|..]
    ensures r == [] || r[0] != '\n'
    ensures forall i :: 0 <= i < |s| - |r| ==> s[i] == '\n'
  {
    if s != [] && s[0] == '\n' then LStripNewlines(s[1..]) else s
  }

  // ---------------------------------------------------------------------
  // Lines
  // ---------------------------------------------------------------------

  /** The lines of `s`, split at every newline (`s.split('\n')`). */
  function Lines(s: string): (r: seq<string>)
    ensures |r| >= 1
  {
    if s == [] then [[]]
    else if s[0] == '\n' then [[]] + Lines(s[1..])
    else
      var t := Lines(s[1..]);
      [[s[0]] + t[0]] + t[1..]
  }

  /** No line holds a newline. */
  lemma {:induction false} LinesNoNewline(s: string)
    ensures forall i :: 0 <= i < |Lines(s)| ==> '\n' !in Lines(s)[i]
  {
    if s != [] {
      LinesNoNewline(s[1..]);
      var t := Lines(s[1..]);
      assert forall j :: 0 <= j < |t| ==> '\n' !in t[j];
      var L := Lines(s);
      if s[0] == '\n' {
        assert L == [[]] + t;
        forall i | 0 <= i < |L| ensures '\n' !in L[i] {
          if i > 0 {
            assert L[i] == t[i - 1];
          }
        }
      } else {
        assert L == [[s[0]] + t[0]] + t[1..];
        forall i | 0 <= i < |L| ensures '\n' !in L[i] {
          if i > 0 {
            assert L[i] == t[i];
          } else {
            assert L[0] == [s[0]] + t[0];
          }
        }
      }
    }
  }

  /** The lines of `ls` joined with newlines (`'\n'.join(ls)`). */
  function Join(ls: seq<string>): string
    requires |ls| >= 1
  {
    if |ls| == 1 then ls[0] else ls[0] + "\n" + Join(ls[1..])
  }

  /** Splitting into lines and joining them again gives the text back. */
  lemma {:induction false} JoinLines(s: string)
    ensures Join(Lines(s)) == s
  {
    if s != [] {
      JoinLines(s[1..]);
      var t := Lines(s[1..]);
      if s[0] == '\n' {
        assert Lines(s)[1..] == t;
      } else {
        var r := [[s[0]] + t[0]] + t[1..];
        assert r[1..] == t[1..];
        if |t| > 1 {
          assert Join(t) == t[0] + "\n" + Join(t[1..]);
        }
      }
    }
  }

  lemma {:induction false} LinesOfLine(a: string)
    requires '\n' !in a
    ensures Lines(a) == [a]
  {
    if a != [] {
      assert '\n' !in a[1..] by { assert forall c :: c in a[1..] ==> c in a; }
      LinesOfLine(a[1..]);
      assert a == [a[0]] + a[1..];
    }
  }

  lemma {:induction false} LinesCons(a: string, rest: string)
    requires '\n' !in a
    ensures Lines(a + "\n" + rest) == [a] + Lines(rest)
  {
    if a == [] {
      assert a + "\n" + rest == "\n" + rest;
      assert ("\n" + rest)[1..] == rest;
    } else {
      assert '\n' !in a[1..] by { assert forall c :: c in a[1..] ==> c in a; }
      LinesCons(a[1..], rest);
      assert (a + "\n" + rest)[1..] == a[1..] + "\n" + rest;
      assert a == [a[0]] + a[1..];
    }
  }

  /** Joining lines without newlines and splitting again gives the lines back. */
  lemma {:induction false} LinesJoin(ls: seq<string>)
    requires |ls| >= 1
    requires forall i :: 0 <= i < |ls| ==> '\n' !in ls[i]
    ensures Lines(Join(ls)) == ls
  {
    if |ls| == 1 {
      LinesOfLine(ls[0]);
    } else {
      LinesJoin(ls[1..]);
      LinesCons(ls[0], Join(ls[1..]));
      assert ls == [ls[0]] + ls[1..];
    }
  }

  lemma {:induction false} VisibleJoin(ls: seq<string>, vs: seq<string>)
    requires |ls| >= 1 && |vs| == |ls|
    requires forall i :: 0 <= i < |ls| ==> Visible(ls[i]) == vs[i]
    ensures Visible(Join(ls)) == Concat(vs)
  {
    if |ls| == 1 {
      assert Concat(vs) == vs[0] + Concat(vs[1..]);
    } else {
      VisibleJoin(ls[1..], vs[1..]);
      VisibleConcat(ls[0] + "\n", Join(ls[1..]));
      VisibleConcat(ls[0], "\n");
      assert Visible("\n") == [];
    }
  }

  /** The concatenation of all strings in `vs`. */
  function Concat(vs: seq<string>): string {
    if vs == [] then [] else vs[0] + Concat(vs[1..])
  }

  /** A non-empty first line starts the joined text. */
  lemma {:induction false} JoinFirst(ls: seq<string>)
    requires |ls| >= 1 && ls[0] != []
    ensures Join(ls) != [] && Join(ls)[0] == ls[0][0]
  {
  }

  /** A non-empty last line ends the joined text. */
  lemma {:induction false} JoinLast(ls: seq<string>)
    requires |ls| >= 1 && ls[|ls| - 1] != []
    ensures Join(ls) != [] && Join(ls)[|Join(ls)| - 1] == ls[|ls| - 1][|ls[|ls| - 1]| - 1]
  {
    if |ls| > 1 {
      JoinLast(ls[1..]);
    }
  }

  /** The last line of a text that ends in some other character than a newline ends in that character. */
  lemma {:induction false} LinesLast(s: string)
    requires s != [] && s[|s| - 1] != '\n'
    ensures var L := Lines(s); L[|L| - 1] != [] && L[|L| - 1][|L[|L| - 1]| - 1] == s[|s| - 1]
  {
    var t := Lines(s[1..]);
    if |s| == 1 {
      assert s[1..] == [];
      assert |t| == 1 && t[0] == [];
      assert [s[0]] + t[0] == [s[0]] && t[1..] == [];
      assert Lines(s) == [[s[0]] + t[0]] + t[1..];
    } else {
      LinesLast(s[1..]);
      var tl := t[|t| - 1];
      assert tl != [] && tl[|tl| - 1] == s[|s| - 1];
      if s[0] == '\n' {
        assert Lines(s) == [[]] + t;
      } else {
        var L := [[s[0]] + t[0]] + t[1..];
        assert Lines(s) == L;
        if |t| == 1 {
          assert L[|L| - 1] == [s[0]] + tl;
        } else {
          assert L[|L| - 1] == tl;
        }
      }
    }
  }

  /** The first line of a text that starts with some other character than a newline starts with it. */
  lemma {:induction false} LinesFirst(s: string)
    requires s != [] && s[0] != '\n'
    ensures Lines(s)[0] != [] && Lines(s)[0][0] == s[0]
  {
  }

  // ---------------------------------------------------------------------
  // Dedent (core.py:38)
  // ---------------------------------------------------------------------

  /** A line made only of spaces and tabs, or empty. */
  predicate IsBlank(line: string) {
    forall i :: 0 <= i < |line| ==> IsIndentChar(line[i])
  }

  /** Lines matching `^[ \t]+$` are emptied. */
  function BlankOut(line: string): string {
    if IsBlank(line) then [] else line
  }

  /** The leading spaces and tabs of `line`. */
  function Indent(line: string): (r: string)
    ensures r <= line
    ensures forall i :: 0 <= i < |r| ==> IsIndentChar(r[i])
    ensures |r| < |line| ==> !IsIndentChar(line[|r|])
  {
    if line != [] && IsIndentChar(line[0]) then [line[0]] + Indent(line[1..]) else []
  }

  /** The longest common prefix of `a` and `b`. */
  function CommonPrefix(a: string, b: string): (r: string)
    ensures r <= a && r <= b
    ensures |r| < |a| && |r| < |b| ==> a[|r|] != b[|r|]
  {
    if a == [] || b == [] || a[0] != b[0] then [] else [a[0]] + CommonPrefix(a[1..], b[1..])
  }

  /**
    The margin of lines that have already been blanked out: the common prefix
    of the indentation of every non-empty line, folded from the left, or None
    when there is no such line.
  */
  function Margin(ls: seq<string>): Option<string> {
    if ls == [] then None
    else
      var m := Margin(ls[..|ls| - 1]);
      var line := ls[|ls| - 1];
      if line == [] then m
      else match m
        case None => Some(Indent(line))
        case Some(p) => Some(CommonPrefix(p, Indent(line)))
  }

  /**
    The margin exists exactly when some line is non-empty; it is then a
    prefix of the indentation of every non-empty line, hence made of spaces
    and tabs only.
  */
  lemma {:induction false} MarginCommon(ls: seq<string>)
    ensures Margin(ls).None? <==> forall i :: 0 <= i < |ls| ==> ls[i] == []
    ensures Margin(ls).Some? ==> forall i :: 0 <= i < |ls| && ls[i] != [] ==> Margin(ls).value <= Indent(ls[i])
    ensures Margin(ls).Some? ==> forall k :: 0 <= k < |Margin(ls).value| ==> IsIndentChar(Margin(ls).value[k])
  {
    MarginNone(ls);
    MarginPrefix(ls);
    if Margin(ls).Some? {
      var i :| 0 <= i < |ls| && ls[i] != [];
      assert Margin(ls).value <= Indent(ls[i]);
    }
  }

  /** The margin is missing exactly when every line is empty. */
  lemma {:induction false} MarginNone(ls: seq<string>)
    ensures Margin(ls).None? <==> forall i :: 0 <= i < |ls| ==> ls[i] == []
  {
    if ls != [] {
      var init := ls[..|ls| - 1];
      MarginNone(init);
      if Margin(ls).None? {
        forall i | 0 <= i < |ls| ensures ls[i] == [] {
          if i < |ls| - 1 {
            assert init[i] == ls[i];
          }
        }
      } else if Margin(init).None? {
        assert ls[|ls| - 1] != [];
      } else {
        var i :| 0 <= i < |init| && init[i] != [];
        assert ls[i] != [];
      }
    }
  }

  /** The margin is a prefix of the indentation of every non-empty line. */
  lemma {:induction false} MarginPrefix(ls: seq<string>)
    ensures Margin(ls).Some? ==> forall i :: 0 <= i < |ls| && ls[i] != [] ==> Margin(ls).value <= Indent(ls[i])
  {
    if ls != [] {
      var init, line := ls[..|ls| - 1], ls[|ls| - 1];
      MarginPrefix(init);
      MarginNone(init);
      var m := Margin(init);
      if Margin(ls).Some? {
        forall i | 0 <= i < |ls| && ls[i] != [] ensures Margin(ls).value <= Indent(ls[i]) {
          if i < |ls| - 1 {
            assert init[i] == ls[i];
          }
        }
      }
    }
  }

  /** A prefix of both strings is a prefix of their longest common prefix. */
  lemma {:induction false} CommonPrefixLongest(p: string, a: string, b: string)
    requires p <= a && p <= b
    ensures p <= CommonPrefix(a, b)
  {
    if p != [] {
      CommonPrefixLongest(p[1..], a[1..], b[1..]);
    }
  }

  /**
    The margin is the LONGEST common prefix of the indentation of the
    non-empty lines: every other common prefix is a prefix of it.
  */
  lemma {:induction false} MarginLongest(ls: seq<string>, p: string)
    requires Margin(ls).Some?
    requires forall i :: 0 <= i < |ls| && ls[i] != [] ==> p <= Indent(ls[i])
    ensures p <= Margin(ls).value
  {
    var init, line := ls[..|ls| - 1], ls[|ls| - 1];
    if line == [] {
      MarginLongest(init, p);
    } else if Margin(init).Some? {
      MarginLongest(init, p);
      CommonPrefixLongest(p, Margin(init).value, Indent(line));
    }
  }

  /** `re.sub('(?m)^' + margin, '', line)` on one line. */
  function StripMargin(line: string, margin: string): string {
    if margin <= line then line[|margin|..] else line
  }

  function BlankOutAll(ls: seq<string>): (r: seq<string>)
    ensures |r| == |ls|
  {
    seq(|ls|, i requires 0 <= i < |ls| => BlankOut(ls[i]))
  }

  function StripAll(ls: seq<string>, margin: string): (r: seq<string>)
    ensures |r| == |ls|
  {
    seq(|ls|, i requires 0 <= i < |ls| => StripMargin(ls[i], margin))
  }

  /** `textwrap.dedent` on text split into lines `ls`: blank lines emptied, the margin cut off. */
  function DedentLines(ls: seq<string>): (r: seq<string>)
    ensures |r| == |ls|
  {
    var bs := BlankOutAll(ls);
    match Margin(bs)
    case None => bs
    case Some(margin) => StripAll(bs, margin)
  }

  /** `textwrap.dedent(s)`. */
  function Dedent(s: string): string {
    Join(DedentLines(Lines(s)))
  }

  /** Blanking out a line and removing a margin of indentation changes nothing visible. */
  lemma {:induction false} DedentLineVisible(line: string, margin: string)
    requires forall k :: 0 <= k < |margin| ==> IsIndentChar(margin[k])
    ensures Visible(StripMargin(BlankOut(line), margin)) == Visible(line)
    ensures Visible(BlankOut(line)) == Visible(line)
  {
    if IsBlank(line) {
      VisibleOfSpaces(line);
      assert StripMargin([], margin) == [] by {
        if margin <= [] {
          assert margin == [];
        }
      }
    } else if margin <= line {
      assert line == margin + line[|margin|..];
      VisibleConcat(margin, line[|margin|..]);
      VisibleOfSpaces(margin);
    }
  }

  /** `textwrap.dedent` removes indentation only: the visible text stays as it was. */
  lemma {:induction false} DedentVisible(s: string)
    ensures Visible(Dedent(s)) == Visible(s)
  {
    var L := Lines(s);
    var D := DedentLines(L);
    var vs := seq(|L|, i requires 0 <= i < |L| => Visible(L[i]));
    JoinLines(s);
    VisibleJoin(L, vs);
    var B := BlankOutAll(L);
    MarginCommon(B);
    forall i | 0 <= i < |D| ensures Visible(D[i]) == vs[i] {
      match Margin(B)
      case None =>
        DedentLineVisible(L[i], []);
      case Some(margin) =>
        DedentLineVisible(L[i], margin);
    }
    VisibleJoin(D, vs);
  }

  /** A line that is not blank keeps a non-empty remainder after its margin goes. */
  lemma {:induction false} StripNonBlank(line: string, margin: string)
    requires !IsBlank(line) && margin <= Indent(line)
    ensures var r := StripMargin(BlankOut(line), margin);
      r != [] && r == line[|margin|..]
  {
  }

  /** A line that is not blank comes out of dedenting as a non-empty suffix of itself. */
  lemma {:induction false} DedentedNonBlank(ls: seq<string>, i: nat)
    requires i < |ls| && !IsBlank(ls[i])
    ensures var line, d := ls[i], DedentLines(ls)[i];
      d != [] && |d| <= |line| && d == line[|line| - |d|..]
  {
    var bs := BlankOutAll(ls);
    assert bs[i] == ls[i];
    MarginCommon(bs);
    var margin := Margin(bs).value;
    StripNonBlank(ls[i], margin);
  }

  /** Cutting a prefix of its indentation off a line cuts the same prefix off its indentation. */
  lemma {:induction false} IndentSuffix(line: string, m: string)
    requires m <= Indent(line)
    ensures Indent(line[|m|..]) == Indent(line)[|m|..]
  {
    if m != [] {
      IndentSuffix(line[1..], m[1..]);
      assert line[1..][|m| - 1..] == line[|m|..];
    }
  }

  /**
    Line by line: a blank line comes out of dedenting empty; any other line
    makes the margin exist and comes out as itself without it, which is not
    blank either.
  */
  lemma {:induction false} DedentLineShape(ls: seq<string>, j: nat)
    requires j < |ls|
    ensures IsBlank(ls[j]) ==> DedentLines(ls)[j] == []
    ensures !IsBlank(ls[j]) ==> (
      && Margin(BlankOutAll(ls)).Some?
      && var m, d := Margin(BlankOutAll(ls)).value, DedentLines(ls)[j];
         m <= Indent(ls[j]) && d == ls[j][|m|..] && !IsBlank(d))
  {
    var bs, d := BlankOutAll(ls), DedentLines(ls);
    if IsBlank(ls[j]) {
      assert bs[j] == [];
      if Margin(bs).Some? {
        assert d[j] == StripMargin([], Margin(bs).value);
      }
    } else {
      assert bs[j] == ls[j];
      MarginNone(bs);
      MarginPrefix(bs);
      var m := Margin(bs).value;
      assert d[j] == StripMargin(bs[j], m);
      StripNonBlank(ls[j], m);
      var k :| 0 <= k < |ls[j]| && !IsIndentChar(ls[j][k]);
      assert k >= |m|;
      assert d[j][k - |m|] == ls[j][k];
    }
  }

  /**
    Dedenting is complete: once some line is not blank, the dedented lines
    have no common indentation left.
  */
  lemma {:induction false} DedentRemovesMargin(ls: seq<string>, i: nat)
    requires i < |ls| && !IsBlank(ls[i])
    ensures Margin(BlankOutAll(DedentLines(ls))) == Some([])
  {
    var bs := BlankOutAll(ls);
    var bd := BlankOutAll(DedentLines(ls));
    assert bs[i] == ls[i];
    MarginNone(bs);
    var m := Margin(bs).value;
    DedentLineShape(ls, i);
    assert bd[i] != [];
    MarginNone(bd);
    MarginPrefix(bd);
    var p := Margin(bd).value;
    forall j | 0 <= j < |bs| && bs[j] != []
      ensures m + p <= Indent(bs[j])
    {
      DedentLineShape(ls, j);
      assert bd[j] == DedentLines(ls)[j];
      IndentSuffix(ls[j], m);
      assert p <= Indent(bd[j]);
    }
    MarginLongest(bs, m + p);
  }

  /** Dedenting lines whose last one is not blank keeps the last character of that line. */
  lemma {:induction false} DedentLinesLast(ls: seq<string>)
    requires |ls| >= 1 && !IsBlank(ls[|ls| - 1])
    ensures var d, last := Join(DedentLines(ls)), ls[|ls| - 1];
      d != [] && d[|d| - 1] == last[|last| - 1]
  {
    var n := |ls| - 1;
    DedentedNonBlank(ls, n);
    var D := DedentLines(ls);
    var dl := D[n];
    assert dl[|dl| - 1] == ls[n][|ls[n]| - 1] by {
      assert dl == ls[n][|ls[n]| - |dl|..];
    }
    JoinLast(D);
  }

  /** Dedenting keeps the last character of a text that ends in a visible character. */
  lemma {:induction false} DedentLast(s: string)
    requires s != [] && !IsSpace(s[|s| - 1])
    ensures var d := Dedent(s); d != [] && d[|d| - 1] == s[|s| - 1]
  {
    var L := Lines(s);
    LinesLast(s);
    var last := L[|L| - 1];
    assert !IsBlank(last) by {
      assert !IsIndentChar(last[|last| - 1]);
    }
    DedentLinesLast(L);
  }

  /** Dedenting a text whose first line is not blank yields a text that does not start with a newline. */
  lemma {:induction false} DedentFirst(s: string)
    requires !IsBlank(Lines(s)[0])
    ensures var d := Dedent(s); d != [] && d[0] != '\n'
  {
    var L := Lines(s);
    LinesNoNewline(s);
    DedentedNonBlank(L, 0);
    var D := DedentLines(L);
    assert D[0][0] in L[0];
    JoinFirst(D);
  }

  // ---------------------------------------------------------------------
  // Newline runs (core.py:39-44)
  // ---------------------------------------------------------------------

  /** Three newlines in a row start at `i`. */
  predicate TripleAt(s: string, i: nat)
    requires i + 2 < |s|
  {
    s[i] == '\n' && s[i + 1] == '\n' && s[i + 2] == '\n'
  }

  /** No three newlines in a row. */
  predicate NoTripleNewline(s: string) {
    forall i :: 0 <= i < |s| - 2 ==> !TripleAt(s, i)
  }

  /** `re.sub(r"\n{2,}", "\n\n", s)`: every run of two or more newlines becomes exactly two. */
  function CollapseNewlines(s: string): string
    decreases |s|
  {
    if |s| >= 2 && s[0] == '\n' && s[1] == '\n' then
      "\n\n" + CollapseNewlines(LStripNewlines(s))
    else if s == [] then []
    else [s[0]] + CollapseNewlines(s[1..])
  }

  /**
    After collapsing no three newlines stand in a row, the empty text stays
    empty, and a first or last character that is not a newline is kept.
  */
  lemma {:induction false} CollapseShape(s: string)
    ensures var r := CollapseNewlines(s);
      && NoTripleNewline(r)
      && (s == [] ==> r == [])
      && (s != [] && s[0] != '\n' ==> r != [] && r[0] == s[0])
      && (s != [] && s[|s| - 1] != '\n' ==> r != [] && r[|r| - 1] == s[|s| - 1])
    decreases |s|
  {
    if |s| >= 2 && s[0] == '\n' && s[1] == '\n' {
      var d := LStripNewlines(s);
      CollapseShape(d);
      CollapseShapeRun(s);
    } else if s != [] {
      CollapseShape(s[1..]);
      CollapseShapeChar(s);
    }
  }

  /** The step of CollapseShape at a run of newlines, given what holds behind the run. */
  lemma {:induction false} CollapseShapeRun(s: string)
    requires |s| >= 2 && s[0] == '\n' && s[1] == '\n'
    requires var d, c := LStripNewlines(s), CollapseNewlines(LStripNewlines(s));
      && NoTripleNewline(c)
      && (d != [] ==> c != [] && c[0] == d[0])
      && (d != [] && d[|d| - 1] != '\n' ==> c != [] && c[|c| - 1] == d[|d| - 1])
    ensures var r := CollapseNewlines(s);
      && NoTripleNewline(r)
      && (s[|s| - 1] != '\n' ==> r != [] && r[|r| - 1] == s[|s| - 1])
  {
    var d := LStripNewlines(s);
    var c := CollapseNewlines(d);
    var r := CollapseNewlines(s);
    assert r == "\n\n" + c by {
      CollapseAtRun(s);
    }
    assert c == [] || c[0] != '\n' by {
      if d == [] {
        assert c == [];
      }
    }
    NoTripleAfterBreak(c);
    if s[|s| - 1] != '\n' {
      assert |d| >= 1 && d == s[|s| - |d|..];
      assert r[|r| - 1] == c[|c| - 1];
    }
  }

  /** A paragraph break in front of a text without three newlines in a row that starts with something else makes none. */
  lemma {:induction false} NoTripleAfterBreak(c: string)
    requires NoTripleNewline(c) && (c == [] || c[0] != '\n')
    ensures NoTripleNewline("\n\n" + c)
  {
    var r := "\n\n" + c;
    forall i | 0 <= i < |r| - 2 ensures !TripleAt(r, i) {
      if i < 2 {
        assert r[2] == c[0];
      } else {
        assert !TripleAt(c, i - 2);
        assert r[i] == c[i - 2] && r[i + 1] == c[i - 1] && r[i + 2] == c[i];
      }
    }
  }

  /** One character in front of a text without three newlines in a row makes none, unless it adds a newline to a leading pair. */
  lemma {:induction false} NoTripleAfterChar(ch: char, c: string)
    requires NoTripleNewline(c) && (ch == '\n' ==> c == [] || c[0] != '\n')
    ensures NoTripleNewline([ch] + c)
  {
    var r := [ch] + c;
    forall i | 0 <= i < |r| - 2 ensures !TripleAt(r, i) {
      if i == 0 {
        assert r[0] == ch && r[1] == c[0];
      } else {
        assert !TripleAt(c, i - 1);
        assert r[i] == c[i - 1] && r[i + 1] == c[i] && r[i + 2] == c[i + 1];
      }
    }
  }

  /** The step of CollapseShape past a character that starts no run, given what holds for the rest. */
  lemma {:induction false} CollapseShapeChar(s: string)
    requires s != [] && !(|s| >= 2 && s[0] == '\n' && s[1] == '\n')
    requires var t, c := s[1..], CollapseNewlines(s[1..]);
      && NoTripleNewline(c)
      && (t != [] && t[0] != '\n' ==> c != [] && c[0] == t[0])
      && (t != [] && t[|t| - 1] != '\n' ==> c != [] && c[|c| - 1] == t[|t| - 1])
    ensures var r := CollapseNewlines(s);
      && NoTripleNewline(r)
      && r != [] && r[0] == s[0]
      && (s[|s| - 1] != '\n' ==> r[|r| - 1] == s[|s| - 1])
  {
    var t := s[1..];
    var c := CollapseNewlines(t);
    var r := CollapseNewlines(s);
    assert r == [s[0]] + c by {
      CollapseAtChar(s);
    }
    assert s[0] == '\n' ==> c == [] || c[0] != '\n' by {
      if t == [] {
        assert c == [];
      }
    }
    NoTripleAfterChar(s[0], c);
    if s[|s| - 1] != '\n' && t != [] {
      assert t[|t| - 1] == s[|s| - 1];
      assert r[|r| - 1] == c[|c| - 1];
    }
  }

  /** Collapsing removes newlines only. */
  lemma {:induction false} CollapseVisible(s: string)
    ensures Visible(CollapseNewlines(s)) == Visible(s)
    decreases |s|
  {
    if |s| >= 2 && s[0] == '\n' && s[1] == '\n' {
      var d := LStripNewlines(s);
      CollapseVisible(d);
      CollapseRunVisible(s);
    } else if s != [] {
      CollapseVisible(s[1..]);
      CollapseStepVisible(s);
    }
  }

  /** One step of collapsing a run of newlines, given what holds for the text behind the run. */
  lemma {:induction false} CollapseRunVisible(s: string)
    requires |s| >= 2 && s[0] == '\n' && s[1] == '\n'
    requires Visible(CollapseNewlines(LStripNewlines(s))) == Visible(LStripNewlines(s))
    ensures Visible(CollapseNewlines(s)) == Visible(s)
  {
    var rest := CollapseNewlines(LStripNewlines(s));
    assert CollapseNewlines(s) == "\n\n" + rest;
    VisibleConcat("\n\n", rest);
    VisibleOfSpaces("\n\n");
    LStripVisible(s);
  }

  /** One step of collapsing past a character that starts no run, given what holds for the rest. */
  lemma {:induction false} CollapseStepVisible(s: string)
    requires s != [] && !(|s| >= 2 && s[0] == '\n' && s[1] == '\n')
    requires Visible(CollapseNewlines(s[1..])) == Visible(s[1..])
    ensures Visible(CollapseNewlines(s)) == Visible(s)
  {
    var rest := CollapseNewlines(s[1..]);
    assert CollapseNewlines(s) == [s[0]] + rest;
    VisibleConcat([s[0]], rest);
    VisibleConcat([s[0]], s[1..]);
    assert s == [s[0]] + s[1..];
  }

  /** Text with no two newlines in a row is left as it is. */
  lemma {:induction false} CollapseUnchanged(s: string)
    requires forall i :: 0 <= i < |s| - 1 ==> !(s[i] == '\n' && s[i + 1] == '\n')
    ensures CollapseNewlines(s) == s
  {
    if s != [] {
      CollapseUnchanged(s[1..]);
      assert s == [s[0]] + s[1..];
    }
  }

  /** `k` newlines in a row. */
  function Newlines(k: nat): (r: string)
    ensures |r| == k && forall i :: 0 <= i < k ==> r[i] == '\n'
  {
    seq(k, i => '\n')
  }

  /** Leading newlines in front of a text that starts with something else are exactly what `lstrip('\n')` drops. */
  lemma {:induction false} LStripRun(k: nat, b: string)
    requires b == [] || b[0] != '\n'
    ensures LStripNewlines(Newlines(k) + b) == b
  {
    if k > 0 {
      assert (Newlines(k) + b)[1..] == Newlines(k - 1) + b;
      LStripRun(k - 1, b);
    } else {
      assert Newlines(0) + b == b;
    }
  }

  /** Stripping leading newlines stops inside a text that ends in something else. */
  lemma {:induction false} LStripConcat(a: string, x: string)
    requires a != [] && a[|a| - 1] != '\n'
    ensures LStripNewlines(a + x) == LStripNewlines(a) + x
  {
    if a[0] == '\n' {
      assert (a + x)[1..] == a[1..] + x;
      LStripConcat(a[1..], x);
    }
  }

  /** Collapsing at a run of newlines: one paragraph break, then the text behind the run. */
  lemma {:induction false} CollapseAtRun(s: string)
    requires |s| >= 2 && s[0] == '\n' && s[1] == '\n'
    ensures CollapseNewlines(s) == "\n\n" + CollapseNewlines(LStripNewlines(s))
  {
  }

  /** Collapsing past a character that starts no run keeps that character. */
  lemma {:induction false} CollapseAtChar(s: string)
    requires s != [] && !(|s| >= 2 && s[0] == '\n' && s[1] == '\n')
    ensures CollapseNewlines(s) == [s[0]] + CollapseNewlines(s[1..])
  {
  }

  /**
    Collapsing works piecewise across a boundary where the left part does not
    end in a newline: no run of newlines spans the boundary.
  */
  lemma {:induction false} CollapseConcat(a: string, x: string)
    requires a == [] || a[|a| - 1] != '\n'
    ensures CollapseNewlines(a + x) == CollapseNewlines(a) + CollapseNewlines(x)
    decreases |a|
  {
    if a == [] {
      assert a + x == x;
    } else if |a| >= 2 && a[0] == '\n' && a[1] == '\n' {
      var d := LStripNewlines(a);
      assert |d| >= 1;
      assert d == a[|a| - |d|..];
      assert d[|d| - 1] == a[|a| - 1];
      assert d[0] == a[|a| - |d|] && d[0] != a[0];
      CollapseConcat(d, x);
      CollapseConcatRun(a, x);
    } else {
      CollapseConcat(a[1..], x);
      CollapseConcatChar(a, x);
    }
  }

  /** The step of CollapseConcat at a run of newlines, given what holds behind the run. */
  lemma {:induction false} CollapseConcatRun(a: string, x: string)
    requires |a| >= 2 && a[0] == '\n' && a[1] == '\n' && a[|a| - 1] != '\n'
    requires CollapseNewlines(LStripNewlines(a) + x) == CollapseNewlines(LStripNewlines(a)) + CollapseNewlines(x)
    ensures CollapseNewlines(a + x) == CollapseNewlines(a) + CollapseNewlines(x)
  {
    var d := LStripNewlines(a);
    var cd, cx := CollapseNewlines(d), CollapseNewlines(x);
    CollapseRunThrough(a, x);
    CollapseAtRun(a);
    Regroup("\n\n", cd, cx, CollapseNewlines(a + x), CollapseNewlines(a));
  }

  /** A run of newlines that starts a text ending in something else is collapsed before anything behind that text. */
  lemma {:induction false} CollapseRunThrough(a: string, x: string)
    requires |a| >= 2 && a[0] == '\n' && a[1] == '\n' && a[|a| - 1] != '\n'
    ensures CollapseNewlines(a + x) == "\n\n" + CollapseNewlines(LStripNewlines(a) + x)
  {
    CollapseAtRun(a + x);
    LStripConcat(a, x);
  }

  /** The step of CollapseConcat past a character that starts no run, given what holds for the rest. */
  lemma {:induction false} CollapseConcatChar(a: string, x: string)
    requires a != [] && a[|a| - 1] != '\n' && !(|a| >= 2 && a[0] == '\n' && a[1] == '\n')
    requires CollapseNewlines(a[1..] + x) == CollapseNewlines(a[1..]) + CollapseNewlines(x)
    ensures CollapseNewlines(a + x) == CollapseNewlines(a) + CollapseNewlines(x)
  {
    var ct, cx := CollapseNewlines(a[1..]), CollapseNewlines(x);
    CollapseCharThrough(a, x);
    CollapseAtChar(a);
    Regroup([a[0]], ct, cx, CollapseNewlines(a + x), CollapseNewlines(a));
  }

  /** A first character that starts no run is kept in front of everything behind it. */
  lemma {:induction false} CollapseCharThrough(a: string, x: string)
    requires a != [] && a[|a| - 1] != '\n' && !(|a| >= 2 && a[0] == '\n' && a[1] == '\n')
    ensures CollapseNewlines(a + x) == [a[0]] + CollapseNewlines(a[1..] + x)
  {
    assert (a + x)[1..] == a[1..] + x;
    CollapseAtChar(a + x);
  }

  /** Regrouping a concatenation, stated over names so that the terms behind them stay folded. */
  lemma {:induction false} Regroup(p: string, q: string, r: string, whole: string, left: string)
    requires whole == p + (q + r) && left == p + q
    ensures whole == left + r
  {
  }

  /**
    A run of two or more newlines between text that does not border it with
    more newlines becomes exactly one paragraph break "\n\n".
  */
  lemma {:induction false} CollapseRun(a: string, k: nat, b: string)
    requires a == [] || a[|a| - 1] != '\n'
    requires b == [] || b[0] != '\n'
    requires k >= 2
    ensures CollapseNewlines(a + Newlines(k) + b) == CollapseNewlines(a) + "\n\n" + CollapseNewlines(b)
  {
    var ca, cb := CollapseNewlines(a), CollapseNewlines(b);
    CollapseAround(a, Newlines(k), b);
    CollapseLeadingRun(k, b);
    Regroup(ca, "\n\n", cb, CollapseNewlines(a + Newlines(k) + b), ca + "\n\n");
  }

  /** Collapsing cuts after a left part that does not end in a newline. */
  lemma {:induction false} CollapseAround(a: string, n: string, b: string)
    requires a == [] || a[|a| - 1] != '\n'
    ensures CollapseNewlines(a + n + b) == CollapseNewlines(a) + CollapseNewlines(n + b)
  {
    assert a + n + b == a + (n + b);
    CollapseConcat(a, n + b);
  }

  /** Two or more leading newlines collapse to one paragraph break in front of the rest. */
  lemma {:induction false} CollapseLeadingRun(k: nat, b: string)
    requires k >= 2 && (b == [] || b[0] != '\n')
    ensures CollapseNewlines(Newlines(k) + b) == "\n\n" + CollapseNewlines(b)
  {
    LStripRun(k, b);
    CollapseAtRun(Newlines(k) + b);
  }

  /** A newline standing alone is kept by collapsing. */
  lemma {:induction false} CollapseSingle(a: string, b: string)
    requires a == [] || a[|a| - 1] != '\n'
    requires b == [] || b[0] != '\n'
    ensures CollapseNewlines(a + "\n" + b) == CollapseNewlines(a) + "\n" + CollapseNewlines(b)
  {
    var ca, cb := CollapseNewlines(a), CollapseNewlines(b);
    CollapseAround(a, "\n", b);
    CollapseLeadingNewline(b);
    Regroup(ca, "\n", cb, CollapseNewlines(a + "\n" + b), ca + "\n");
  }

  /** One leading newline before something else is kept in front of the rest. */
  lemma {:induction false} CollapseLeadingNewline(b: string)
    requires b == [] || b[0] != '\n'
    ensures CollapseNewlines("\n" + b) == "\n" + CollapseNewlines(b)
  {
    assert ("\n" + b)[1..] == b;
    CollapseAtChar("\n" + b);
  }

  /** The newline at `i` has no newline on either side (`(?<!\n)\n(?!\n)`). */
  predicate Solitary(s: string, i: nat)
    requires i < |s|
  {
    s[i] == '\n' && (i == 0 || s[i - 1] != '\n') && (i == |s| - 1 || s[i + 1] != '\n')
  }

  /** `re.sub(r"(?<!\n)\n(?!\n)", " ", s)`: every solitary newline becomes a space. */
  function SpaceSolitary(s: string): (r: string)
    ensures |r| == |s|
  {
    seq(|s|, i requires 0 <= i < |s| => if Solitary(s, i) then ' ' else s[i])
  }

  /**
    What spacing does at each position: a solitary newline becomes a space,
    a newline with a newline beside it stays, and every other character stays.
  */
  lemma {:induction false} SpaceSolitaryChars(s: string)
    ensures var r := SpaceSolitary(s);
      && |r| == |s|
      && (forall i :: 0 <= i < |s| && Solitary(s, i) ==> r[i] == ' ')
      && (forall i :: 0 <= i < |s| - 1 && s[i] == '\n' && s[i + 1] == '\n' ==> r[i..i + 2] == "\n\n")
      && (forall i :: 0 <= i < |s| && s[i] != '\n' ==> r[i] == s[i])
  {
    var r := SpaceSolitary(s);
    forall i | 0 <= i < |s| - 1 && s[i] == '\n' && s[i + 1] == '\n'
      ensures r[i..i + 2] == "\n\n"
    {
      assert !Solitary(s, i) && !Solitary(s, i + 1);
      assert r[i..i + 2] == [r[i], r[i + 1]];
    }
  }

  /** The character at `i` is not a newline, or it has a newline beside it. */
  predicate PairedAt(s: string, i: nat)
    requires i < |s|
  {
    s[i] == '\n' ==> (0 < i && s[i - 1] == '\n') || (i + 1 < |s| && s[i + 1] == '\n')
  }

  /** Every newline of `s` has a newline beside it, and no three stand in a row. */
  predicate NewlinesPaired(s: string) {
    && NoTripleNewline(s)
    && forall i :: 0 <= i < |s| ==> PairedAt(s, i)
  }

  /** After collapsing, spacing leaves only paragraph breaks and changes nothing visible. */
  lemma {:induction false} SpaceSolitarySpec(s: string)
    requires NoTripleNewline(s)
    ensures NewlinesPaired(SpaceSolitary(s))
    ensures Visible(SpaceSolitary(s)) == Visible(s)
  {
    var r := SpaceSolitary(s);
    forall i | 0 <= i < |r| ensures PairedAt(r, i) {
      if r[i] == '\n' {
        assert !Solitary(s, i);
        if 0 < i && s[i - 1] == '\n' {
          assert !Solitary(s, i - 1);
        } else {
          assert !Solitary(s, i + 1);
        }
      }
    }
    assert forall i :: 0 <= i < |r| && r[i] == '\n' ==> s[i] == '\n';
    forall i | 0 <= i < |r| - 2 ensures !TripleAt(r, i) {
      assert !TripleAt(s, i);
    }
    SameVisible(s, r);
  }

  // ---------------------------------------------------------------------
  // The whole pipeline (core.py:26-45)
  // ---------------------------------------------------------------------

  /** The text after masking and stripping (`stripped`, core.py:37). */
  function Stripped(u: string): string {
    LStripNewlines(RStrip(Mask(u)))
  }

  /** The text just before unmasking (`spaces_for_ns`, core.py:40-44). */
  function Reflowed(u: string): string {
    SpaceSolitary(CollapseNewlines(Dedent(Stripped(u))))
  }

  /** `paragraphs(u)`. */
  function Paragraphs(u: string): string {
    Unmask(Reflowed(u))
  }

  // ---------------------------------------------------------------------
  // What each stage keeps
  // ---------------------------------------------------------------------

  /** The text is empty or ends in a character that is not whitespace. */
  predicate EndsVisible(s: string) {
    s == [] || !IsSpace(s[|s| - 1])
  }

  /** The text is not empty and does not start with a newline. */
  predicate StartsWithoutNewline(s: string) {
    s != [] && s[0] != '\n'
  }

  lemma {:induction false} RStripVisible(m: string)
    ensures Visible(RStrip(m)) == Visible(m)
  {
    var a := RStrip(m);
    assert a == m[0..|a|];
    VisibleSlice(m, 0, |a|);
  }

  lemma {:induction false} LStripVisible(a: string)
    ensures Visible(LStripNewlines(a)) == Visible(a)
  {
    var t := LStripNewlines(a);
    assert t == a[|a| - |t|..|a|];
    VisibleSlice(a, |a| - |t|, |a|);
  }

  /** Stripping removes whitespace only. */
  lemma {:induction false} StrippedVisible(u: string)
    ensures Visible(Stripped(u)) == Visible(Mask(u))
  {
    var a := RStrip(Mask(u));
    RStripVisible(Mask(u));
    LStripVisible(a);
  }

  /** The stripped text ends in a visible character, or is empty. */
  lemma {:induction false} StrippedEnd(u: string)
    ensures EndsVisible(Stripped(u))
  {
    var a := RStrip(Mask(u));
    var t := LStripNewlines(a);
    if t != [] {
      assert t[|t| - 1] == a[|a| - 1];
    }
  }

  lemma {:induction false} DedentEmpty()
    ensures Dedent([]) == []
  {
    assert Lines([]) == [[]];
    var bs := BlankOutAll([[]]);
    assert bs == [[]];
    assert Margin(bs) == None;
  }

  lemma {:induction false} DedentEnd(t: string)
    requires EndsVisible(t)
    ensures EndsVisible(Dedent(t))
  {
    if t == [] {
      DedentEmpty();
    } else {
      DedentLast(t);
    }
  }

  lemma {:induction false} CollapseEnd(d: string)
    requires EndsVisible(d)
    ensures EndsVisible(CollapseNewlines(d))
  {
    CollapseShape(d);
    EndsVisibleKept(d, CollapseNewlines(d));
  }

  /** A text that is empty with `s`, or keeps the last character of `s`, ends visibly when `s` does. */
  lemma {:induction false} EndsVisibleKept(s: string, r: string)
    requires EndsVisible(s) && (s == [] ==> r == [])
    requires s != [] && s[|s| - 1] != '\n' ==> r != [] && r[|r| - 1] == s[|s| - 1]
    ensures EndsVisible(r)
  {
  }

  lemma {:induction false} CollapseStart(d: string)
    requires StartsWithoutNewline(d)
    ensures StartsWithoutNewline(CollapseNewlines(d))
  {
    CollapseShape(d);
  }

  lemma {:induction false} SpaceSolitaryEnd(c: string)
    requires EndsVisible(c)
    ensures EndsVisible(SpaceSolitary(c))
  {
    if c != [] {
      assert !Solitary(c, |c| - 1);
    }
  }

  lemma {:induction false} SpaceSolitaryStart(c: string)
    requires StartsWithoutNewline(c)
    ensures StartsWithoutNewline(SpaceSolitary(c))
  {
    assert !Solitary(c, 0);
  }

  // ---------------------------------------------------------------------
  // What the whole pipeline promises
  // ---------------------------------------------------------------------

  /**
    The reflowed text keeps every visible character, hard breaks (Mark)
    included, in order: only whitespace is removed or replaced.
  */
  lemma {:induction false} ReflowedVisible(u: string)
    ensures Visible(Reflowed(u)) == Visible(Mask(u))
  {
    var t := Stripped(u);
    StrippedVisible(u);
    var d := Dedent(t);
    DedentVisible(t);
    var c := CollapseNewlines(d);
    CollapseVisible(d);
    CollapseShape(d);
    SpaceSolitarySpec(c);
  }

  /**
    In the reflowed text every newline belongs to a paragraph break "\n\n":
    no newline stands alone and no three stand in a row.
  */
  lemma {:induction false} ReflowedBreaks(u: string)
    ensures NewlinesPaired(Reflowed(u))
  {
    var d := Dedent(Stripped(u));
    var c := CollapseNewlines(d);
    CollapseShape(d);
    SpaceSolitarySpec(c);
  }

  /**
    Where the collapsed text has a paragraph break the reflowed text has one,
    where it has a solitary newline the reflowed text has a space, and every
    other character is kept in place.
  */
  lemma {:induction false} ReflowedSpacing(u: string)
    ensures var c, r := CollapseNewlines(Dedent(Stripped(u))), Reflowed(u);
      && |r| == |c|
      && (forall i :: 0 <= i < |c| && Solitary(c, i) ==> r[i] == ' ')
      && (forall i :: 0 <= i < |c| - 1 && c[i] == '\n' && c[i + 1] == '\n' ==> r[i..i + 2] == "\n\n")
      && (forall i :: 0 <= i < |c| && c[i] != '\n' ==> r[i] == c[i])
  {
    var c := CollapseNewlines(Dedent(Stripped(u)));
    assert Reflowed(u) == SpaceSolitary(c);
    SpaceSolitaryChars(c);
  }

  /** The reflowed text does not end in whitespace. */
  lemma {:induction false} ReflowedNoTrailingSpace(u: string)
    ensures var r := Reflowed(u); r == [] || !IsSpace(r[|r| - 1])
  {
    var t := Stripped(u);
    StrippedEnd(u);
    var d := Dedent(t);
    DedentEnd(t);
    var c := CollapseNewlines(d);
    CollapseEnd(d);
    SpaceSolitaryEnd(c);
  }

  /**
    The reflowed text does not start with a newline, provided the first line
    of the stripped text holds more than spaces and tabs.
  */
  lemma {:induction false} ReflowedNoLeadingNewline(u: string)
    requires !IsBlank(Lines(Stripped(u))[0])
    ensures var r := Reflowed(u); r != [] && r[0] != '\n'
  {
    var t := Stripped(u);
    var d := Dedent(t);
    DedentFirst(t);
    var c := CollapseNewlines(d);
    CollapseStart(d);
    SpaceSolitaryStart(c);
  }

  /**
    Without that proviso a newline can lead: the first line "  " survives
    `lstrip('\n')`, then dedent empties it, and the paragraph break behind it
    starts the result.
  */
  lemma {:induction false} LeadingBlankLineKept()
    ensures Reflowed("  \n\nx") == "\n\nx"
  {
    ExampleStripped();
    ExampleDedent();
    ExampleReflow();
  }

  lemma {:induction false} ExampleStripped()
    ensures Stripped("  \n\nx") == "  \n\nx"
  {
    var u := "  \n\nx";
    assert Mask("x") == "x";
    assert Mask("\nx") == "\nx";
    assert Mask("\n\nx") == "\n\nx";
    assert Mask(" \n\nx") == " \n\nx";
    assert Mask(u) == u;
    assert RStrip(u) == u;
  }

  lemma {:induction false} ExampleLines()
    ensures Lines("  \n\nx") == ["  ", "", "x"]
  {
    var u := "  \n\nx";
    var t0: string := [];
    assert ("x")[1..] == t0;
    assert Lines(t0) == [t0];
    assert [t0][1..] == [];
    assert ['x'] + t0 == "x";
    assert Lines("x") == ["x"];
    assert ("\nx")[1..] == "x";
    assert Lines("\nx") == ["", "x"];
    assert ("\n\nx")[1..] == "\nx";
    assert Lines("\n\nx") == ["", "", "x"];
    var t1 := Lines("\n\nx");
    assert (" \n\nx")[1..] == "\n\nx";
    assert [' '] + t1[0] == " " && t1[1..] == ["", "x"];
    assert Lines(" \n\nx") == [" ", "", "x"];
    var t2 := Lines(" \n\nx");
    assert u[1..] == " \n\nx";
    assert [' '] + t2[0] == "  " && t2[1..] == ["", "x"];
  }

  lemma {:induction false} ExampleDedent()
    ensures Dedent("  \n\nx") == "\n\nx"
  {
    ExampleLines();
    assert IsBlank("  ");
    var bs := BlankOutAll(["  ", "", "x"]);
    assert bs == ["", "", "x"];
    assert Indent("x") == [];
    assert bs[..2][..1][..0] == [];
    assert Margin(bs[..2][..1]) == None;
    assert Margin(bs[..2]) == None;
    assert Margin(bs) == Some([]);
    assert StripAll(bs, []) == bs;
    assert Join(bs) == "\n\nx";
  }

  lemma {:induction false} ExampleReflow()
    ensures SpaceSolitary(CollapseNewlines("\n\nx")) == "\n\nx"
  {
    ExampleCollapse();
    ExampleSpaces();
  }

  lemma {:induction false} ExampleCollapse()
    ensures CollapseNewlines("\n\nx") == "\n\nx"
  {
    ExampleLStrip();
    assert ("x")[1..] == [];
  }

  lemma {:induction false} ExampleLStrip()
    ensures LStripNewlines("\n\nx") == "x"
  {
    var c := "\n\nx";
    assert c[1..] == "\nx";
    assert c[1..][1..] == "x";
  }

  lemma {:induction false} ExampleSpaces()
    ensures SpaceSolitary("\n\nx") == "\n\nx"
  {
    var c := "\n\nx";
    var r := SpaceSolitary(c);
    assert !Solitary(c, 0) && !Solitary(c, 1) && !Solitary(c, 2);
    assert r[0] == c[0] && r[1] == c[1] && r[2] == c[2];
  }

  /**
    A line break inside a paragraph becomes a space, a blank line between
    paragraphs stays a paragraph break.
  */
  lemma {:induction false} SingleBreakJoined()
    ensures Paragraphs("a\nb\n\nc") == "a b\n\nc"
  {
    var u, r := "a\nb\n\nc", "a b\n\nc";
    JoinedStripped();
    JoinedDedent();
    JoinedCollapse();
    JoinedSpaces();
    JoinedNoMark();
    ParagraphsThrough(u, u, u, u, r);
  }

  lemma {:induction false} JoinedNoMark()
    ensures Mark !in "a b\n\nc"
  {
  }

  /** `paragraphs` through its stages, given the text after each one, on text that holds no Mark after spacing. */
  lemma {:induction false} ParagraphsThrough(u: string, t: string, d: string, c: string, r: string)
    requires Stripped(u) == t && Dedent(t) == d && CollapseNewlines(d) == c && SpaceSolitary(c) == r
    requires Mark !in r
    ensures Paragraphs(u) == r
  {
    UnmaskUnchanged(r);
  }

  lemma {:induction false} JoinedStripped()
    ensures Stripped("a\nb\n\nc") == "a\nb\n\nc"
  {
    var u := "a\nb\n\nc";
    assert Bell !in u;
    MaskUnchanged(u);
    assert RStrip(u) == u;
    assert LStripNewlines(u) == u;
  }

  lemma {:induction false} JoinedLines()
    ensures Lines("a\nb\n\nc") == ["a", "b", "", "c"]
  {
    var t0: string := [];
    assert ("c")[1..] == t0;
    assert Lines(t0) == [t0];
    assert [t0][1..] == [];
    assert ['c'] + t0 == "c";
    assert Lines("c") == ["c"];
    assert ("\nc")[1..] == "c";
    assert Lines("\nc") == ["", "c"];
    assert ("\n\nc")[1..] == "\nc";
    assert Lines("\n\nc") == ["", "", "c"];
    var t1 := Lines("\n\nc");
    assert ("b\n\nc")[1..] == "\n\nc";
    assert ['b'] + t1[0] == "b" && t1[1..] == ["", "c"];
    assert Lines("b\n\nc") == ["b", "", "c"];
    assert ("\nb\n\nc")[1..] == "b\n\nc";
    assert Lines("\nb\n\nc") == ["", "b", "", "c"];
    var t2 := Lines("\nb\n\nc");
    assert ("a\nb\n\nc")[1..] == "\nb\n\nc";
    assert ['a'] + t2[0] == "a" && t2[1..] == ["b", "", "c"];
  }

  lemma {:induction false} JoinedDedent()
    ensures Dedent("a\nb\n\nc") == "a\nb\n\nc"
  {
    var u := "a\nb\n\nc";
    var ls := ["a", "b", "", "c"];
    JoinedLines();
    assert !IsBlank("a") && !IsBlank("b") && !IsBlank("c");
    var bs := BlankOutAll(ls);
    assert bs == ls;
    assert Indent("a") == [] && Indent("b") == [] && Indent("c") == [];
    var l1, l2, l3 := ["a"], ["a", "b"], ["a", "b", ""];
    assert l1[..0] == [] && l2[..1] == l1 && l3[..2] == l2 && ls[..3] == l3;
    assert Margin(l1) == Some([]);
    assert Margin(l2) == Some([]);
    assert Margin(l3) == Some([]);
    assert Margin(ls) == Some([]);
    assert StripAll(bs, []) == bs;
    JoinLines(u);
  }

  lemma {:induction false} JoinedCollapse()
    ensures CollapseNewlines("a\nb\n\nc") == "a\nb\n\nc"
  {
    var a, b := "a\nb", "c";
    assert Newlines(2) == "\n\n";
    assert a + Newlines(2) + b == "a\nb\n\nc";
    CollapseRun(a, 2, b);
    CollapseUnchanged(a);
    CollapseUnchanged(b);
  }

  lemma {:induction false} JoinedSpaces()
    ensures SpaceSolitary("a\nb\n\nc") == "a b\n\nc"
  {
    var c := "a\nb\n\nc";
    var r := SpaceSolitary(c);
    assert Solitary(c, 1);
    assert !Solitary(c, 3) && !Solitary(c, 4);
    assert r[0] == 'a' && r[1] == ' ' && r[2] == 'b' && r[3] == '\n' && r[4] == '\n' && r[5] == 'c';
  }

  /** Every newline of the result is a hard break or half of a paragraph break. */
  lemma {:induction false} ParagraphsNewlines(u: string)
    ensures var p, r := Paragraphs(u), Reflowed(u);
      |p| == |r| && NewlinesPaired(r) &&
      forall i :: 0 <= i < |p| ==> (p[i] == '\n' <==> r[i] == '\n' || r[i] == Mark)
  {
    var r := Reflowed(u);
    ReflowedBreaks(u);
    UnmaskNewlines(r);
  }

  /**
    On every input, `paragraphs` keeps exactly what is visible once each hard
    break `\a\n`, and each Mark character of the input, is read as a newline:
    the BEL of a hard break goes, and nothing else visible is added, dropped
    or reordered.
  */
  lemma {:induction false} ParagraphsVisibleUnmasked(u: string)
    ensures Visible(Paragraphs(u)) == Visible(Unmask(Mask(u)))
  {
    var r := Reflowed(u);
    ReflowedVisible(u);
    VisibleUnmask(r);
    VisibleUnmask(Mask(u));
  }

  /**
    On text without BEL and without the Mark character, `paragraphs` only
    removes or replaces whitespace: every other character is kept, in order.
  */
  lemma {:induction false} ParagraphsVisible(u: string)
    requires Bell !in u && Mark !in u
    ensures Visible(Paragraphs(u)) == Visible(u)
  {
    MaskUnchanged(u);
    UnmaskUnchanged(u);
    ParagraphsVisibleUnmasked(u);
  }
}
