/**
 * The few pieces of Python's `str` semantics the publishing engine relies on:
 * whitespace trimming (`strip`, `lstrip`, `rstrip`, `lstrip(chars)`), affix removal
 * (`removeprefix`, `removesuffix`), splitting (`split(sep)`, `splitlines()`) and `join`.
 * Each is written out character by character so that the exact Python edge cases
 * (an empty string splits into one piece, `splitlines` drops a final empty line,
 * `"\r\n"` is one line break) are part of the model.
 */
module PyStr {
  import opened Wrappers

  /** `c.isspace()` in Python: the characters `str.strip()` removes. */
  predicate IsSpace(c: char) {
    || c == ' '
    || ('\t' <= c <= '\r')
    || ('\U{1C}' <= c <= '\U{1F}')
    || c == '\U{85}' || c == '\U{A0}' || c == '\U{1680}'
    || ('\U{2000}' <= c <= '\U{200A}')
    || c == '\U{2028}' || c == '\U{2029}' || c == '\U{202F}' || c == '\U{205F}' || c == '\U{3000}'
  }

  /** The line boundaries recognised by Python's `str.splitlines()`. */
  predicate IsLineBreak(c: char) {
    || c == '\n' || c == '\r' || c == '\U{0B}' || c == '\U{0C}'
    || ('\U{1C}' <= c <= '\U{1E}')
    || c == '\U{85}' || c == '\U{2028}' || c == '\U{2029}'
  }

  predicate StartsWith(s: string, prefix: string) {
    prefix <= s
  }

  predicate EndsWith(s: string, suffix: string) {
    |suffix| <= |s| && s[|s| - |suffix|..] == suffix
  }

  predicate NoLineBreaks(s: string) {
    forall i :: 0 <= i < |s| ==> !IsLineBreak(s[i])
  }

  /** The only line boundary `s` contains, if any, is `'\n'`. */
  predicate OnlyNewlineBreaks(s: string) {
    forall i :: 0 <= i < |s| && IsLineBreak(s[i]) ==> s[i] == '\n'
  }

  predicate AllSpace(s: string) {
    forall i :: 0 <= i < |s| ==> IsSpace(s[i])
  }

  /** Python's `value or fallback` for an environment lookup: an unset or empty value falls back. */
  function OrElse(value: Option<string>, fallback: string): string {
    if value.Some? && value.value != [] then value.value else fallback
  }

  /** `s.lstrip()`: the longest suffix of `s` not starting with whitespace. */
  function LStrip(s: string): (r: string)
    ensures |r| <= |s|
    ensures r != [] ==> !IsSpace(r[0])
    ensures forall i :: 0 <= i < |s| - |r| ==> IsSpace(s[i])
    decreases |s|
  {
    if s != [] && IsSpace(s[0]) then LStrip(s[1..]) else s
  }

  /** `s.rstrip()`: the longest prefix of `s` not ending with whitespace. */
  function RStrip(s: string): (r: string)
    ensures r <= s
    ensures r != [] ==> !IsSpace(r[|r| - 1])
    ensures forall i :: |r| <= i < |s| ==> IsSpace(s[i])
    decreases |s|
  {
    if s != [] && IsSpace(s[|s| - 1]) then RStrip(s[..|s| - 1]) else s
  }

  /** `s.strip()`: whitespace removed at both ends. */
  function Strip(s: string): (r: string)
    ensures r != [] ==> !IsSpace(r[0]) && !IsSpace(r[|r| - 1])
    ensures |r| <= |s|
  {
    RStrip(LStrip(s))
  }

  /** `s.lstrip(chars)`: every leading character that occurs in `chars` is removed. */
  function LStripChars(s: string, chars: string): (r: string)
    ensures |r| <= |s| && r == s[|s| - |r|..]
    ensures r != [] ==> r[0] !in chars
    ensures forall i :: 0 <= i < |s| - |r| ==> s[i] in chars
    decreases |s|
  {
    if s != [] && s[0] in chars then LStripChars(s[1..], chars) else s
  }

  /** `s.removesuffix(suffix)`. */
  function RemoveSuffix(s: string, suffix: string): (r: string)
    ensures if suffix != [] && EndsWith(s, suffix) then r + suffix == s else r == s
  {
    if suffix != [] && EndsWith(s, suffix) then s[..|s| - |suffix|] else s
  }

  /** `s.removeprefix(prefix)`. */
  function RemovePrefix(s: string, prefix: string): (r: string)
    ensures if prefix != [] && StartsWith(s, prefix) then prefix + r == s else r == s
  {
    if prefix != [] && StartsWith(s, prefix) then s[|prefix|..] else s
  }

  /** `s.split(sep)`: left-to-right, non-overlapping; always at least one piece. */
  function SplitOn(s: string, sep: string): (r: seq<string>)
    requires sep != []
    ensures |r| >= 1
    decreases |s|
  {
    if |s| < |sep| then [s]
    else if s[..|sep|] == sep then [[]] + SplitOn(s[|sep|..], sep)
    else
      var rest := SplitOn(s[1..], sep);
      [[s[0]] + rest[0]] + rest[1..]
  }

  /** `sep.join(parts)`. */
  function Join(parts: seq<string>, sep: string): string
    decreases |parts|
  {
    if parts == [] then []
    else if |parts| == 1 then parts[0]
    else parts[0] + sep + Join(parts[1..], sep)
  }

  /** `s.splitlines()`: no final empty line, `"\r\n"` counts as one break, `""` has no lines. */
  function SplitLines(s: string): (r: seq<string>)
    ensures r == [] <==> s == []
    decreases |s|
  {
    if s == [] then []
    else if IsLineBreak(s[0]) then
      [[]] + SplitLines(if s[0] == '\r' && |s| > 1 && s[1] == '\n' then s[2..] else s[1..])
    else
      var rest := SplitLines(s[1..]);
      if rest == [] then [[s[0]]] else [[s[0]] + rest[0]] + rest[1..]
  }

  /** No line of `lines` starts with `key`. */
  predicate NoneStartWith(lines: seq<string>, key: string) {
    forall j :: 0 <= j < |lines| ==> !StartsWith(lines[j], key)
  }

  /**
   * `next((i for i, line in enumerate(lines) if line.startswith(key)), None)`:
   * the index of the first line that starts with `key`.
   */
  function FindLine(lines: seq<string>, key: string): (r: Option<nat>)
    ensures r.Some? ==> r.value < |lines| && StartsWith(lines[r.value], key)
    ensures r.Some? ==> forall j :: 0 <= j < r.value ==> !StartsWith(lines[j], key)
    ensures r.None? <==> NoneStartWith(lines, key)
    decreases |lines|
  {
    if lines == [] then None
    else if StartsWith(lines[0], key) then Some(0)
    else
      match FindLine(lines[1..], key)
      case None => None
      case Some(i) => Some(i + 1)
  }

  /** `s.split(sep, 1)[1]` for an `s` that starts with `sep`: the text after the first occurrence. */
  function SplitOnceTail(s: string, sep: string): (r: string)
    requires sep != [] && StartsWith(s, sep)
    ensures r == s[|sep|..]
  {
    assert s[..|sep|] == sep;
    assert SplitOn(s, sep)[1..] == SplitOn(s[|sep|..], sep);
    JoinSplitOn(s[|sep|..], sep);
    Join(SplitOn(s, sep)[1..], sep)
  }

  /** Line `i` is the first line of `lines` that starts with `key`. */
  predicate FirstWith(lines: seq<string>, key: string, i: int) {
    && 0 <= i < |lines|
    && StartsWith(lines[i], key)
    && forall j :: 0 <= j < i ==> !StartsWith(lines[j], key)
  }

  /**
   * The value carried by the first line that starts with `key`: whatever follows
   * `key` on that line, stripped; `None` when no line starts with `key`.
   * A matching line is never empty, because `key` is not.
   */
  function KeyedValue(lines: seq<string>, key: string): (r: Option<string>)
    requires key != []
    ensures r.None? <==> NoneStartWith(lines, key)
    ensures r.Some? ==> FirstWith(lines, key, FindLine(lines, key).value)
    ensures r.Some? ==> r.value == Strip(lines[FindLine(lines, key).value][|key|..])
  {
    match FindLine(lines, key)
    case None => None
    case Some(i) => Some(Strip(SplitOnceTail(lines[i], key)))
  }

  /** Every line break is whitespace, so `strip` also removes line breaks. */
  lemma LineBreakIsSpace(c: char)
    requires IsLineBreak(c)
    ensures IsSpace(c)
  {
  }

  // ----- strip -----

  /** What `lstrip` leaves is a suffix of its argument. */
  lemma {:induction false} LStripIsSuffix(s: string)
    ensures LStrip(s) == s[|s| - |LStrip(s)|..]
    decreases |s|
  {
    if s != [] && IsSpace(s[0]) {
      LStripIsSuffix(s[1..]);
      assert s[1..][|s[1..]| - |LStrip(s)|..] == s[|s| - |LStrip(s)|..];
    }
  }

  lemma LStripSpaceCons(c: char, s: string)
    requires IsSpace(c)
    ensures LStrip([c] + s) == LStrip(s)
  {
    assert ([c] + s)[1..] == s;
  }

  /** Whitespace at the right end never survives `rstrip`. */
  lemma {:induction false} RStripDropsSpace(x: string, w: string)
    requires AllSpace(w)
    ensures RStrip(x + w) == RStrip(x)
    decreases |w|
  {
    if w != [] {
      var w' := w[..|w| - 1];
      assert (x + w)[..|x + w| - 1] == x + w';
      RStripDropsSpace(x, w');
    } else {
      assert x + w == x;
    }
  }

  lemma RStripOfStripped(s: string)
    ensures RStrip(Strip(s)) == Strip(s)
  {
  }

  /** What is left of `x + y` by `rstrip` when `y` has a non-space character. */
  lemma {:induction false} RStripKeepsLeft(x: string, y: string)
    requires RStrip(y) != []
    ensures RStrip(x + y) == x + RStrip(y)
    decreases |y|
  {
    if IsSpace(y[|y| - 1]) {
      var y' := y[..|y| - 1];
      assert (x + y)[..|x + y| - 1] == x + y';
      RStripKeepsLeft(x, y');
    }
  }

  lemma StripIdempotent(s: string)
    ensures Strip(Strip(s)) == Strip(s)
  {
    var r := Strip(s);
    if r != [] {
      assert LStrip(r) == r;
    }
  }

  /** A leading space disappears under `strip`. */
  lemma StripSpaceCons(c: char, s: string)
    requires IsSpace(c)
    ensures Strip([c] + s) == Strip(s)
  {
    LStripSpaceCons(c, s);
  }

  // ----- split / join -----

  /** `sep.join(s.split(sep)) == s`. */
  lemma {:induction false} JoinSplitOn(s: string, sep: string)
    requires sep != []
    ensures Join(SplitOn(s, sep), sep) == s
    decreases |s|
  {
    if |s| < |sep| {
    } else if s[..|sep|] == sep {
      JoinSplitOn(s[|sep|..], sep);
      JoinCons([], SplitOn(s[|sep|..], sep), sep);
      assert s == [] + sep + s[|sep|..];
    } else {
      JoinSplitOn(s[1..], sep);
      JoinConsHead(s[0], SplitOn(s[1..], sep), sep);
      assert s == [s[0]] + s[1..];
    }
  }

  /** Joining one more part in front. */
  lemma JoinCons(x: string, rest: seq<string>, sep: string)
    requires rest != []
    ensures Join([x] + rest, sep) == x + sep + Join(rest, sep)
  {
    assert ([x] + rest)[0] == x && ([x] + rest)[1..] == rest;
  }

  /** A character glued to the first part comes first in the join. */
  lemma JoinConsHead(c: char, rest: seq<string>, sep: string)
    requires rest != []
    ensures Join([[c] + rest[0]] + rest[1..], sep) == [c] + Join(rest, sep)
  {
    var x := [c] + rest[0];
    if |rest| == 1 {
      assert [x] + rest[1..] == [x];
    } else {
      JoinCons(x, rest[1..], sep);
      JoinCons(rest[0], rest[1..], sep);
      assert [rest[0]] + rest[1..] == rest;
      assert x + sep + Join(rest[1..], sep) == [c] + (rest[0] + sep + Join(rest[1..], sep));
    }
  }

  /** A string without the separator is a single piece. */
  lemma {:induction false} SplitOnNewlineFree(s: string)
    requires '\n' !in s
    ensures SplitOn(s, "\n") == [s]
    decreases |s|
  {
    if |s| >= 1 {
      assert s[0] != '\n';
      assert s[1..] == s[1..];
      assert '\n' !in s[1..] by {
        forall i | 0 <= i < |s[1..]| ensures s[1..][i] != '\n' {
          assert s[1..][i] == s[i + 1];
        }
      }
      SplitOnNewlineFree(s[1..]);
      assert [s[0]] + s[1..] == s;
    }
  }

  /** Splitting on a one-character separator distributes over a joint at that separator. */
  lemma {:induction false} SplitOnNewlineConcat(a: string, b: string)
    ensures SplitOn(a + "\n" + b, "\n") == SplitOn(a, "\n") + SplitOn(b, "\n")
    decreases |a|
  {
    var sep := "\n";
    var s := a + sep + b;
    if a == [] {
      assert s[..1] == sep;
      assert s[1..] == b;
      SplitOnSeparatorHead(s, sep);
    } else {
      SplitOnNewlineConcat(a[1..], b);
      assert s[..1] == a[..1] && s[0] == a[0];
      assert s[1..] == a[1..] + sep + b;
      if a[0] == '\n' {
        SplitOnSeparatorHead(s, sep);
        SplitOnSeparatorHead(a, sep);
        PiecesAfterHead([], SplitOn(s, sep), SplitOn(s[1..], sep), SplitOn(a, sep), SplitOn(a[1..], sep), SplitOn(b, sep));
      } else {
        SplitOnOrdinaryHead(s, sep);
        SplitOnOrdinaryHead(a, sep);
        ConsOntoFirst(a[0], SplitOn(a[1..], sep), SplitOn(b, sep));
      }
    }
  }

  /** No piece of `s.split("\n")` contains `'\n'`. */
  lemma {:induction false} SplitOnNewlinePieces(s: string)
    ensures forall k :: 0 <= k < |SplitOn(s, "\n")| ==> '\n' !in SplitOn(s, "\n")[k]
    decreases |s|
  {
    if |s| >= 1 {
      if s[..1] == "\n" {
        SplitOnNewlinePieces(s[1..]);
        assert SplitOn(s, "\n") == [[]] + SplitOn(s[1..], "\n");
      } else {
        SplitOnNewlinePieces(s[1..]);
        var rest := SplitOn(s[1..], "\n");
        assert s[0] != '\n';
        assert '\n' !in [s[0]] + rest[0];
      }
    }
  }

  /** With `'\n'` as the only line boundary, the pieces of `split("\n")` hold no line break. */
  lemma {:induction false} SplitOnNewlinePiecesBreakFree(s: string)
    requires OnlyNewlineBreaks(s)
    ensures forall k :: 0 <= k < |SplitOn(s, "\n")| ==> NoLineBreaks(SplitOn(s, "\n")[k])
    decreases |s|
  {
    if |s| >= 1 {
      assert OnlyNewlineBreaks(s[1..]) by {
        forall i | 0 <= i < |s[1..]| && IsLineBreak(s[1..][i]) ensures s[1..][i] == '\n' {
          assert s[1..][i] == s[i + 1];
        }
      }
      SplitOnNewlinePiecesBreakFree(s[1..]);
      if s[..1] != "\n" {
        var rest := SplitOn(s[1..], "\n");
        assert s[0] != '\n';
        assert NoLineBreaks([s[0]] + rest[0]) by {
          forall i | 0 <= i < |[s[0]] + rest[0]| ensures !IsLineBreak(([s[0]] + rest[0])[i]) {
            if i > 0 {
              assert ([s[0]] + rest[0])[i] == rest[0][i - 1];
            }
          }
        }
      }
    }
  }

  lemma JoinSnoc(parts: seq<string>, x: string, sep: string)
    requires parts != []
    ensures Join(parts + [x], sep) == Join(parts, sep) + sep + x
    decreases |parts|
  {
    if |parts| == 1 {
      assert (parts + [x])[1..] == [x];
    } else {
      assert (parts + [x])[1..] == parts[1..] + [x];
      JoinSnoc(parts[1..], x, sep);
    }
  }

  /** `"\n".join(parts).split("\n") == parts` when no part holds `'\n'`. */
  lemma {:induction false} SplitOnJoin(parts: seq<string>)
    requires parts != []
    requires forall k :: 0 <= k < |parts| ==> '\n' !in parts[k]
    ensures SplitOn(Join(parts, "\n"), "\n") == parts
    decreases |parts|
  {
    if |parts| == 1 {
      SplitOnNewlineFree(parts[0]);
    } else {
      SplitOnJoin(parts[1..]);
      SplitOnNewlineFree(parts[0]);
      SplitOnNewlineConcat(parts[0], Join(parts[1..], "\n"));
      assert [parts[0]] + parts[1..] == parts;
    }
  }

  /**
   * `"\n".join(parts).rstrip()` is again a join of lines, each a prefix of the
   * corresponding original part.
   */
  lemma {:induction false} RStripJoin(parts: seq<string>) returns (kept: seq<string>)
    ensures RStrip(Join(parts, "\n")) == Join(kept, "\n")
    ensures |kept| <= |parts|
    ensures forall k :: 0 <= k < |kept| ==> kept[k] <= parts[k]
    decreases |parts|
  {
    if parts == [] {
      kept := [];
    } else {
      var init, last := parts[..|parts| - 1], parts[|parts| - 1];
      if init == [] {
        assert parts == [last];
        kept := [RStrip(last)];
      } else {
        assert init + [last] == parts;
        JoinSnoc(init, last, "\n");
        assert Join(parts, "\n") == Join(init, "\n") + ("\n" + last);
        if RStrip(last) == [] {
          assert AllSpace("\n" + last) by {
            forall i | 0 <= i < |"\n" + last| ensures IsSpace(("\n" + last)[i]) {
              if i > 0 {
                assert ("\n" + last)[i] == last[i - 1];
              }
            }
          }
          RStripDropsSpace(Join(init, "\n"), "\n" + last);
          kept := RStripJoin(init);
        } else {
          RStripKeepsLeft(Join(init, "\n") + "\n", last);
          assert Join(init, "\n") + ("\n" + last) == (Join(init, "\n") + "\n") + last;
          kept := init + [RStrip(last)];
          JoinSnoc(init, RStrip(last), "\n");
        }
      }
    }
  }

  /** Splitting at a paragraph break, when it is not glued to a preceding `'\n'`. */
  lemma {:induction false} SplitOnParagraphConcat(a: string, b: string)
    requires a == [] || a[|a| - 1] != '\n'
    ensures SplitOn(a + "\n\n" + b, "\n\n") == SplitOn(a, "\n\n") + SplitOn(b, "\n\n")
    decreases |a|
  {
    var s := a + "\n\n" + b;
    if a == [] {
      assert s[..2] == "\n\n";
      assert s[2..] == b;
    } else if |a| >= 2 && a[..2] == "\n\n" {
      SplitOnParagraphConcat(a[2..], b);
      ParagraphBreakFirst(a, b);
    } else {
      SplitOnParagraphConcat(a[1..], b);
      if |a| >= 2 {
        ParagraphCharFirst(a, b);
      } else {
        ParagraphSingleChar(a, b);
      }
    }
  }

  /** The induction step of `SplitOnParagraphConcat` when `a` opens with a paragraph break. */
  lemma ParagraphBreakFirst(a: string, b: string)
    requires |a| >= 2 && a[..2] == "\n\n" && a[|a| - 1] != '\n'
    requires SplitOn(a[2..] + "\n\n" + b, "\n\n") == SplitOn(a[2..], "\n\n") + SplitOn(b, "\n\n")
    ensures SplitOn(a + "\n\n" + b, "\n\n") == SplitOn(a, "\n\n") + SplitOn(b, "\n\n")
  {
    var sep := "\n\n";
    var s := a + sep + b;
    var t := a[2..] + sep + b;
    assert s[..2] == sep by { assert s[0] == a[0] && s[1] == a[1]; }
    assert s[2..] == t;
    SplitOnSeparatorHead(s, sep);
    SplitOnSeparatorHead(a, sep);
    PiecesAfterHead([], SplitOn(s, sep), SplitOn(t, sep), SplitOn(a, sep), SplitOn(a[2..], sep), SplitOn(b, sep));
  }

  /** Pieces algebra: a first piece in front of `x`, then `y` appended, is `x + y` with that first piece in front. */
  lemma PiecesAfterHead(h: string, st: seq<string>, t: seq<string>, ax: seq<string>, x: seq<string>, y: seq<string>)
    requires st == [h] + t && t == x + y && ax == [h] + x
    ensures st == ax + y
  {
  }

  /** `split` of a string that opens with the separator: an empty first piece. */
  lemma SplitOnSeparatorHead(t: string, sep: string)
    requires sep != [] && |t| >= |sep| && t[..|sep|] == sep
    ensures SplitOn(t, sep) == [[]] + SplitOn(t[|sep|..], sep)
  {
  }

  /** The induction step of `SplitOnParagraphConcat` when `a` opens with two characters that are no break. */
  lemma ParagraphCharFirst(a: string, b: string)
    requires |a| >= 2 && a[..2] != "\n\n" && a[|a| - 1] != '\n'
    requires SplitOn(a[1..] + "\n\n" + b, "\n\n") == SplitOn(a[1..], "\n\n") + SplitOn(b, "\n\n")
    ensures SplitOn(a + "\n\n" + b, "\n\n") == SplitOn(a, "\n\n") + SplitOn(b, "\n\n")
  {
    var s := a + "\n\n" + b;
    assert s[..2] == a[..2] && s[0] == a[0];
    assert s[1..] == a[1..] + "\n\n" + b;
    SplitOnOrdinaryHead(a, "\n\n");
    SplitOnOrdinaryHead(s, "\n\n");
    ConsOntoFirst(a[0], SplitOn(a[1..], "\n\n"), SplitOn(b, "\n\n"));
  }

  /** `split` of a string that does not open with the separator: its first character joins the first piece. */
  lemma SplitOnOrdinaryHead(t: string, sep: string)
    requires sep != [] && |t| >= |sep| && t[..|sep|] != sep
    ensures SplitOn(t, sep) == [[t[0]] + SplitOn(t[1..], sep)[0]] + SplitOn(t[1..], sep)[1..]
  {
  }

  /** Putting a character in front of the first piece commutes with appending more pieces. */
  lemma ConsOntoFirst(c: char, xs: seq<string>, ys: seq<string>)
    requires xs != []
    ensures [[c] + (xs + ys)[0]] + (xs + ys)[1..] == ([[c] + xs[0]] + xs[1..]) + ys
  {
    assert (xs + ys)[0] == xs[0];
    assert (xs + ys)[1..] == xs[1..] + ys;
  }

  /** The induction step of `SplitOnParagraphConcat` for a one-character `a`. */
  lemma ParagraphSingleChar(a: string, b: string)
    requires |a| == 1 && a[0] != '\n'
    requires SplitOn(a[1..] + "\n\n" + b, "\n\n") == SplitOn(a[1..], "\n\n") + SplitOn(b, "\n\n")
    ensures SplitOn(a + "\n\n" + b, "\n\n") == SplitOn(a, "\n\n") + SplitOn(b, "\n\n")
  {
    var s := a + "\n\n" + b;
    var rb := SplitOn(b, "\n\n");
    assert a[1..] == [];
    assert SplitOn(a[1..], "\n\n") == [[]];
    assert s[1..] == "\n\n" + b;
    assert SplitOn(s[1..], "\n\n") == [[]] + rb;
    assert s[..2] != "\n\n";
    assert SplitOn(a, "\n\n") == [a];
    assert SplitOn(s, "\n\n") == [[s[0]] + []] + rb;
    assert [s[0]] + [] == a;
  }

  /** No two consecutive `'\n'` in `s`. */
  predicate NoBlankLine(s: string) {
    forall i :: 0 <= i < |s| - 1 ==> !(s[i] == '\n' && s[i + 1] == '\n')
  }

  /** The first piece of `s.split("\n")` is the text up to the first `'\n'`, or all of `s`. */
  lemma {:induction false} SplitOnNewlineFirstPiece(s: string)
    ensures var f := SplitOn(s, "\n")[0];
      && |f| <= |s| && s[..|f|] == f && '\n' !in f
      && (|f| < |s| ==> s[|f|] == '\n')
    decreases |s|
  {
    if |s| >= 1 {
      if s[..1] == "\n" {
        SplitOnSeparatorHead(s, "\n");
        assert s[0] == s[..1][0];
      } else {
        var t := s[1..];
        SplitOnOrdinaryHead(s, "\n");
        SplitOnNewlineFirstPiece(t);
        var g := SplitOn(t, "\n")[0];
        assert s[0] != '\n' by {
          assert s[..1] == [s[0]];
        }
        assert s[..|g| + 1] == [s[0]] + t[..|g|];
      }
    }
  }

  /** `sep` occurs in `s` at position `i`. */
  predicate OccursAt(s: string, sep: string, i: nat) {
    i + |sep| <= |s| && s[i..i + |sep|] == sep
  }

  /** `sep` occurs nowhere in `s`. */
  predicate SeparatorFree(s: string, sep: string) {
    forall i: nat :: i <= |s| ==> !OccursAt(s, sep, i)
  }

  /**
   * The last piece of `s.split(sep)` is all of `s` when it is the only piece, and
   * otherwise what follows the last separator the split consumed.
   */
  lemma SplitOnLastPiece(s: string, sep: string)
    requires sep != []
    ensures var ps := SplitOn(s, sep);
      && (|ps| == 1 ==> ps[0] == s)
      && (|ps| > 1 ==> s == Join(ps[..|ps| - 1], sep) + sep + ps[|ps| - 1])
  {
    JoinSplitOn(s, sep);
    JoinLast(SplitOn(s, sep), sep);
  }

  /** Joining parts: the join of all but the last, a separator, and the last. */
  lemma JoinLast(parts: seq<string>, sep: string)
    requires parts != []
    ensures |parts| == 1 ==> Join(parts, sep) == parts[0]
    ensures |parts| > 1 ==> Join(parts, sep) == Join(parts[..|parts| - 1], sep) + sep + parts[|parts| - 1]
  {
    if |parts| > 1 {
      assert parts == parts[..|parts| - 1] + [parts[|parts| - 1]];
      JoinSnoc(parts[..|parts| - 1], parts[|parts| - 1], sep);
    }
  }

  /** The last piece of `s.split(sep)` holds no `sep`. */
  lemma {:induction false} SplitOnLastPieceFree(s: string, sep: string)
    requires sep != []
    ensures SeparatorFree(SplitOn(s, sep)[|SplitOn(s, sep)| - 1], sep)
    decreases |s|
  {
    if |s| < |sep| {
    } else if s[..|sep|] == sep {
      SplitOnSeparatorHead(s, sep);
      SplitOnLastPieceFree(s[|sep|..], sep);
    } else {
      var t := s[1..];
      SplitOnOrdinaryHead(s, sep);
      SplitOnLastPieceFree(t, sep);
      if |SplitOn(t, sep)| == 1 {
        SplitOnLastPiece(t, sep);
        assert [s[0]] + t == s;
        forall i: nat | i <= |s| ensures !OccursAt(s, sep, i) {
          if i == 0 {
            assert s[..|sep|] == s[0..0 + |sep|];
          } else {
            OccursAtShift(s, sep, i);
          }
        }
      }
    }
  }

  /** An occurrence past the first character is one in the string's tail. */
  lemma OccursAtShift(s: string, sep: string, i: nat)
    requires 0 < i && s != []
    ensures OccursAt(s, sep, i) ==> OccursAt(s[1..], sep, i - 1)
  {
    var t := s[1..];
    if i + |sep| <= |s| {
      var a, b := s[i..i + |sep|], t[i - 1..i - 1 + |sep|];
      forall k | 0 <= k < |sep| ensures a[k] == b[k] {
        assert t[i - 1 + k] == s[i + k];
      }
      assert a == b;
    }
  }

  /** Without `"\n\n"` in it, a string has no two consecutive `'\n'`. */
  lemma ParagraphFreeNoBlankLine(s: string)
    requires SeparatorFree(s, "\n\n")
    ensures NoBlankLine(s)
  {
    forall i | 0 <= i < |s| - 1 ensures !(s[i] == '\n' && s[i + 1] == '\n') {
      assert !OccursAt(s, "\n\n", i);
      assert s[i..i + 2] == [s[i], s[i + 1]];
    }
  }

  /** A string without `"\n\n"` is a single paragraph. */
  lemma {:induction false} SplitOnParagraphFree(s: string)
    requires NoBlankLine(s)
    ensures SplitOn(s, "\n\n") == [s]
    decreases |s|
  {
    if |s| >= 2 {
      assert s[..2] != "\n\n" by {
        assert !(s[0] == '\n' && s[1] == '\n');
      }
      assert NoBlankLine(s[1..]) by {
        forall i | 0 <= i < |s[1..]| - 1 ensures !(s[1..][i] == '\n' && s[1..][i + 1] == '\n') {
          assert s[1..][i] == s[i + 1] && s[1..][i + 1] == s[i + 2];
        }
      }
      SplitOnParagraphFree(s[1..]);
      assert [s[0]] + s[1..] == s;
    }
  }

  // ----- splitlines -----

  /** A non-empty string without line breaks is a single line. */
  lemma {:induction false} SplitLinesBreakFree(s: string)
    requires s != [] && NoLineBreaks(s)
    ensures SplitLines(s) == [s]
    decreases |s|
  {
    if |s| > 1 {
      assert NoLineBreaks(s[1..]) by {
        forall i | 0 <= i < |s[1..]| ensures !IsLineBreak(s[1..][i]) {
          assert s[1..][i] == s[i + 1];
        }
      }
      SplitLinesBreakFree(s[1..]);
      assert [s[0]] + s[1..] == s;
    } else {
      assert s == [s[0]] && !IsLineBreak(s[0]);
      assert SplitLines(s[1..]) == [];
    }
  }

  /** A line break at the start of a string ends an empty first line. */
  lemma SplitLinesBreakHead(c: char, b: string)
    requires IsLineBreak(c)
    requires c == '\r' ==> b == [] || b[0] != '\n'
    ensures SplitLines([c] + b) == [[]] + SplitLines(b)
  {
    assert ([c] + b)[0] == c;
    assert ([c] + b)[1..] == b;
  }

  /** A character that is not a break joins the first line of what follows it. */
  lemma SplitLinesCons(c: char, s: string)
    requires !IsLineBreak(c)
    ensures SplitLines([c] + s) == if s == [] then [[c]] else [[c] + SplitLines(s)[0]] + SplitLines(s)[1..]
  {
    assert ([c] + s)[0] == c;
    assert ([c] + s)[1..] == s;
  }

  /** `splitlines` distributes over a `'\n'` placed after a character that is not a break. */
  lemma {:induction false} SplitLinesConcat(a: string, b: string)
    requires a != [] && !IsLineBreak(a[|a| - 1])
    ensures SplitLines(a + "\n" + b) == SplitLines(a) + SplitLines(b)
    decreases |a|, 1
  {
    if IsLineBreak(a[0]) {
      SplitLinesConcatBreak(a, b);
    } else if |a| == 1 {
      SplitLinesConcatOne(a[0], b);
    } else {
      assert a + "\n" + b == [a[0]] + (a[1..] + "\n" + b) && a == [a[0]] + a[1..];
      SplitLinesConcatCons(a[0], a[1..], b);
    }
  }

  /** The case of `SplitLinesConcat` where `a` is a single character. */
  lemma SplitLinesConcatOne(c: char, b: string)
    requires !IsLineBreak(c)
    ensures SplitLines([c] + "\n" + b) == SplitLines([c]) + SplitLines(b)
  {
    assert [c] + "\n" + b == [c] + (['\n'] + b);
    SplitLinesCons(c, ['\n'] + b);
    SplitLinesCons(c, []);
    assert [c] + [] == [c];
    SplitLinesBreakHead('\n', b);
  }

  /** The case of `SplitLinesConcat` where `a` is a character that is not a break followed by more. */
  lemma {:induction false} SplitLinesConcatCons(c: char, rest: string, b: string)
    requires rest != [] && !IsLineBreak(c) && !IsLineBreak(rest[|rest| - 1])
    ensures SplitLines([c] + (rest + "\n" + b)) == SplitLines([c] + rest) + SplitLines(b)
    decreases |rest| + 1, 0
  {
    var t := rest + "\n" + b;
    var ra, rb := SplitLines(rest), SplitLines(b);
    SplitLinesConcat(rest, b);
    SplitLinesCons(c, t);
    SplitLinesCons(c, rest);
    HeadTailConcat(ra, rb);
    ConsConcat([c] + ra[0], ra[1..], rb);
  }

  lemma HeadTailConcat<T>(s: seq<T>, t: seq<T>)
    requires s != []
    ensures (s + t)[0] == s[0] && (s + t)[1..] == s[1..] + t
  {
  }

  lemma ConsConcat<T>(x: T, s: seq<T>, t: seq<T>)
    ensures [x] + s + t == [x] + (s + t)
  {
  }

  /** The case of `SplitLinesConcat` where `a` starts with a line break: drop the break (or `"\r\n"`) and recurse. */
  lemma {:induction false} SplitLinesConcatBreak(a: string, b: string)
    requires a != [] && !IsLineBreak(a[|a| - 1]) && IsLineBreak(a[0])
    ensures SplitLines(a + "\n" + b) == SplitLines(a) + SplitLines(b)
    decreases |a|, 0
  {
    var s := a + "\n" + b;
    assert s[0] == a[0];
    assert |a| >= 2;
    assert s[1] == a[1];
    if a[0] == '\r' && a[1] == '\n' {
      assert |a| >= 3;
      assert s[2..] == a[2..] + "\n" + b;
      SplitLinesConcat(a[2..], b);
    } else {
      assert s[1..] == a[1..] + "\n" + b;
      SplitLinesConcat(a[1..], b);
    }
  }

  /** A whitespace prefix disappears under `strip`. */
  lemma {:induction false} StripDropsLeadingSpace(w: string, s: string)
    requires AllSpace(w)
    ensures Strip(w + s) == Strip(s)
    decreases |w|
  {
    if w != [] {
      assert w + s == [w[0]] + (w[1..] + s);
      StripSpaceCons(w[0], w[1..] + s);
      StripDropsLeadingSpace(w[1..], s);
    } else {
      assert w + s == s;
    }
  }

  /** A string whose ends are not whitespace is left alone by `strip`. */
  lemma StripOfTrimmed(s: string)
    requires s != [] && !IsSpace(s[0]) && !IsSpace(s[|s| - 1])
    ensures Strip(s) == s
  {
    assert LStrip(s) == s;
    assert RStrip(s) == s;
  }

  /** `"\n".join(parts).splitlines()` is a prefix of `parts` when no part holds a line break. */
  lemma {:induction false} SplitLinesJoin(parts: seq<string>)
    requires forall k :: 0 <= k < |parts| ==> NoLineBreaks(parts[k])
    ensures SplitLines(Join(parts, "\n")) <= parts
    decreases |parts|
  {
    if |parts| == 1 {
      if parts[0] != [] {
        SplitLinesBreakFree(parts[0]);
      }
    } else if |parts| > 1 {
      var x, rest := parts[0], Join(parts[1..], "\n");
      SplitLinesJoin(parts[1..]);
      if x == [] {
        assert Join(parts, "\n") == "\n" + rest;
        assert ("\n" + rest)[1..] == rest;
      } else {
        SplitLinesConcat(x, rest);
        SplitLinesBreakFree(x);
      }
      assert [x] + parts[1..] == parts;
    }
  }

  // ----- FindLine -----

  /** The first matching line of `a + b` is the first of `a`, or else the first of `b`. */
  lemma {:induction false} FindLineConcat(a: seq<string>, b: seq<string>, key: string)
    ensures FindLine(a + b, key) ==
      if FindLine(a, key).Some? then FindLine(a, key)
      else match FindLine(b, key) case None => None case Some(i) => Some(|a| + i)
    decreases |a|
  {
    if a == [] {
      assert a + b == b;
    } else {
      var ab := a + b;
      assert ab[0] == a[0];
      assert ab[1..] == a[1..] + b;
      FindLineConcat(a[1..], b, key);
      if !StartsWith(a[0], key) {
        FindLineShift(a, key);
        FindLineShift(ab, key);
      }
    }
  }

  /** A first line that does not match shifts the index found in the rest by one. */
  lemma FindLineShift(lines: seq<string>, key: string)
    requires lines != [] && !StartsWith(lines[0], key)
    ensures FindLine(lines, key) == match FindLine(lines[1..], key) case None => None case Some(i) => Some(i + 1)
  {
  }

  /** The keyed value of `a + b` is the one of `a`, or else the one of `b`. */
  lemma KeyedValueConcat(a: seq<string>, b: seq<string>, key: string)
    requires key != []
    ensures KeyedValue(a + b, key) ==
      if KeyedValue(a, key).Some? then KeyedValue(a, key) else KeyedValue(b, key)
  {
    FindLineConcat(a, b, key);
    if FindLine(a, key).Some? {
      var i := FindLine(a, key).value;
      assert (a + b)[i] == a[i];
    } else if FindLine(b, key).Some? {
      var i := FindLine(b, key).value;
      assert (a + b)[|a| + i] == b[i];
    }
  }
}
