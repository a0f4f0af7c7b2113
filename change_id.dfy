/**
 * The Change-Id trailer codec of the current git-publish (src/git_publish/main.py).
 *
 * A commit message carries its change id on a trailer line `<prefix> <id>`; the
 * prefix is configurable and defaults to `Change-Id:`. Reading finds the first
 * `splitlines()` line that starts with the prefix; stripping removes every
 * `split("\n")` line that starts with it; appending puts a fresh trailer after a
 * blank line. A fresh id is `<namespace>/<four lowercase hex digits>`.
 */
module ChangeId {
  import opened Wrappers
  import opened PyStr

  const DefaultPrefix: string := "Change-Id:"

  /** A trailer prefix: never empty, because an empty setting falls back to the default. */
  type Prefix = s: string | s != [] witness "Change-Id:"

  /** A value of `getrandbits(16)`. */
  type Bits16 = n: int | 0 <= n < 0x1_0000

  /** `get_change_id_prefix`: the `GITPUBLISH_CHANGE_ID_PREFIX` setting, unless unset or empty. */
  function ChangeIdPrefix(setting: Option<string>): (r: Prefix)
    ensures setting.Some? && setting.value != [] ==> r == setting.value
    ensures setting.None? || setting.value == [] ==> r == DefaultPrefix
  {
    OrElse(setting, DefaultPrefix)
  }

  /** `get_change_id`: the stripped remainder of the first line that starts with the prefix. */
  function GetChangeId(prefix: Prefix, message: string): (r: Option<string>)
    ensures r.None? <==> NoneStartWith(SplitLines(message), prefix)
    ensures r.Some? ==> FirstWith(SplitLines(message), prefix, FindLine(SplitLines(message), prefix).value)
    ensures r.Some? ==> r.value == Strip(SplitLines(message)[FindLine(SplitLines(message), prefix).value][|prefix|..])
  {
    KeyedValue(SplitLines(message), prefix)
  }

  /** The lines of `lines` that do not start with `prefix`, in their order. */
  function DropPrefixed(lines: seq<string>, prefix: string): (r: seq<string>)
    ensures |r| <= |lines|
    ensures forall k :: 0 <= k < |r| ==> !StartsWith(r[k], prefix)
    decreases |lines|
  {
    if lines == [] then []
    else if StartsWith(lines[0], prefix) then DropPrefixed(lines[1..], prefix)
    else [lines[0]] + DropPrefixed(lines[1..], prefix)
  }

  /** `strip_change_id`: the message without its trailer lines, with no trailing whitespace. */
  function StripChangeId(prefix: Prefix, message: string): (r: string)
    ensures r == [] || !IsSpace(r[|r| - 1])
  {
    RStrip(Join(DropPrefixed(SplitOn(message, "\n"), prefix), "\n"))
  }

  /** The trailer line `append_change_id_in_commit_message` writes. */
  function TrailerLine(prefix: Prefix, changeId: string): string {
    prefix + " " + changeId
  }

  /** `append_change_id_in_commit_message`: the stripped message, a blank line, the trailer. */
  function AppendChangeId(prefix: Prefix, changeId: string, message: string): string {
    Strip(message) + "\n\n" + TrailerLine(prefix, changeId) + "\n"
  }

  /** A lowercase hexadecimal digit, as `format(n, "x")` writes it. */
  predicate IsHexDigit(c: char) {
    '0' <= c <= '9' || 'a' <= c <= 'f'
  }

  function HexDigit(d: nat): (c: char)
    requires d < 16
    ensures IsHexDigit(c)
  {
    if d < 10 then ('0' as int + d) as char else ('a' as int + d - 10) as char
  }

  lemma DigitValueOfHexDigit(d: nat)
    requires d < 16
    ensures DigitValue(HexDigit(d)) == d
  {
  }

  function DigitValue(c: char): (d: nat)
    requires IsHexDigit(c)
    ensures d < 16 && HexDigit(d) == c
  {
    if c <= '9' then c as int - '0' as int else c as int - 'a' as int + 10
  }

  /** The value of a string of lowercase hexadecimal digits, most significant first. */
  function HexValue(s: string): nat
    requires forall k :: 0 <= k < |s| ==> IsHexDigit(s[k])
  {
    if s == [] then 0 else 16 * HexValue(s[..|s| - 1]) + DigitValue(s[|s| - 1])
  }

  /** `f"{n:04x}"` for a 16-bit `n`: exactly four lowercase hex digits that spell `n`. */
  function Hex4(n: Bits16): (r: string)
    ensures |r| == 4
    ensures forall k :: 0 <= k < 4 ==> IsHexDigit(r[k])
    ensures HexValue(r) == n
  {
    var d, q1 := n % 16, n / 16;
    var c, q2 := q1 % 16, q1 / 16;
    var b, a := q2 % 16, q2 / 16;
    var r := [HexDigit(a), HexDigit(b), HexDigit(c), HexDigit(d)];
    DigitValueOfHexDigit(a);
    DigitValueOfHexDigit(b);
    DigitValueOfHexDigit(c);
    DigitValueOfHexDigit(d);
    assert r[..3] == [r[0], r[1], r[2]] && r[..3][..2] == [r[0], r[1]] && r[..3][..2][..1] == [r[0]];
    assert [r[0]][..0] == [];
    assert HexValue([r[0]]) == a;
    assert HexValue([r[0], r[1]]) == q2;
    assert HexValue([r[0], r[1], r[2]]) == q1;
    r
  }

  /**
   * `create_change_id`: `GITPUBLISH_BRANCH_PREFIX` (or, when unset or empty, the user
   * name), a slash, and `bits` as four lowercase hex digits.
   */
  function CreateChangeId(branchPrefix: Option<string>, user: string, bits: Bits16): (r: string)
    ensures |r| >= 5 && r[|r| - 5] == '/'
    ensures r[..|r| - 5] == if branchPrefix.Some? && branchPrefix.value != [] then branchPrefix.value else user
    ensures forall k :: |r| - 4 <= k < |r| ==> IsHexDigit(r[k])
    ensures HexValue(r[|r| - 4..]) == bits
  {
    var namespace := OrElse(branchPrefix, user);
    var r := namespace + "/" + Hex4(bits);
    assert r[|r| - 4..] == Hex4(bits);
    assert r[..|r| - 5] == namespace;
    r
  }

  /** A message after `get_or_set_change_id`, and the change id it is published under. */
  datatype Stamped = Stamped(message: string, changeId: string, rewritten: bool)

  /**
   * `get_or_set_change_id` on the message of a commit: an existing non-empty id is
   * kept and the message left alone; otherwise `freshId` (the next `create_change_id`)
   * is appended as a trailer.
   */
  function GetOrSetChangeId(prefix: Prefix, message: string, freshId: string): (r: Stamped)
    ensures !r.rewritten <==> GetChangeId(prefix, message).Some? && GetChangeId(prefix, message).value != []
    ensures !r.rewritten ==> r.message == message && Some(r.changeId) == GetChangeId(prefix, message)
    ensures r.rewritten ==> r.message == AppendChangeId(prefix, freshId, message) && r.changeId == freshId
  {
    var found := GetChangeId(prefix, message);
    if found.Some? && found.value != [] then Stamped(message, found.value, false)
    else Stamped(AppendChangeId(prefix, freshId, message), freshId, true)
  }

  /** The new content of the message file after `update_commit_message_file`. */
  function UpdateCommitMessageFile(prefix: Prefix, message: string, freshId: string): (r: string)
    ensures GetChangeId(prefix, message).Some? && GetChangeId(prefix, message).value != [] ==> r == message
    ensures GetChangeId(prefix, message).None? || GetChangeId(prefix, message).value == [] ==>
      r == AppendChangeId(prefix, freshId, message)
  {
    GetOrSetChangeId(prefix, message, freshId).message
  }

  // ----- lemmas -----

  /** The trailer line holds no line break when neither the prefix nor the id does. */
  lemma TrailerLineBreakFree(prefix: Prefix, changeId: string)
    requires NoLineBreaks(prefix) && NoLineBreaks(changeId)
    ensures NoLineBreaks(TrailerLine(prefix, changeId))
    ensures !IsLineBreak(TrailerLine(prefix, changeId)[|TrailerLine(prefix, changeId)| - 1])
  {
    var t := TrailerLine(prefix, changeId);
    forall k | 0 <= k < |t| ensures !IsLineBreak(t[k]) {
      if k < |prefix| {
        assert t[k] == prefix[k];
      } else if k > |prefix| {
        assert t[k] == changeId[k - |prefix| - 1];
      }
    }
  }

  /** The value read back from the trailer line is the (trimmed) id. */
  lemma TrailerValueIsId(prefix: Prefix, changeId: string)
    requires Strip(changeId) == changeId
    ensures Strip(TrailerLine(prefix, changeId)[|prefix|..]) == changeId
  {
    assert TrailerLine(prefix, changeId)[|prefix|..] == [' '] + changeId;
    StripSpaceCons(' ', changeId);
  }

  /** A trailer right after a line that is not one is what `get_change_id` reads. */
  lemma TrailerAfterLine(prefix: Prefix, line: string, changeId: string)
    requires !StartsWith(line, prefix) && Strip(changeId) == changeId
    ensures KeyedValue([line, TrailerLine(prefix, changeId)], prefix) == Some(changeId)
  {
    var t := TrailerLine(prefix, changeId);
    assert [line, t][1..] == [t];
    assert FindLine([line, t], prefix) == Some(1);
    TrailerValueIsId(prefix, changeId);
  }

  /** The lines that follow the stripped message in an appended message. */
  lemma AppendedTailLines(prefix: Prefix, changeId: string)
    requires NoLineBreaks(prefix) && NoLineBreaks(changeId) && Strip(changeId) == changeId
    ensures SplitLines("\n" + TrailerLine(prefix, changeId) + "\n") == [[], TrailerLine(prefix, changeId)]
    ensures KeyedValue([[], TrailerLine(prefix, changeId)], prefix) == Some(changeId)
  {
    var t := TrailerLine(prefix, changeId);
    TrailerLineBreakFree(prefix, changeId);
    SplitLinesBreakFree(t);
    SplitLinesConcat(t, []);
    assert t + "\n" + [] == t + "\n";
    assert ("\n" + t + "\n")[1..] == t + "\n";
    TrailerAfterLine(prefix, [], changeId);
  }

  /**
   * Reading back an appended trailer: the first trailer of the stripped message
   * still wins, and without one the appended id is found. The id must be trimmed
   * and neither it nor the prefix may contain a line break.
   */
  lemma GetChangeIdAfterAppend(prefix: Prefix, changeId: string, message: string)
    requires NoLineBreaks(prefix) && NoLineBreaks(changeId) && Strip(changeId) == changeId
    ensures GetChangeId(prefix, AppendChangeId(prefix, changeId, message)) ==
      if GetChangeId(prefix, Strip(message)).Some? then GetChangeId(prefix, Strip(message)) else Some(changeId)
  {
    AppendedTailLines(prefix, changeId);
    if Strip(message) == [] {
      AppendedToBlank(prefix, changeId, message);
    } else {
      AppendedToText(prefix, changeId, message);
    }
  }

  /** `GetChangeIdAfterAppend` for a message that strips to nothing: only the trailer is found. */
  lemma AppendedToBlank(prefix: Prefix, changeId: string, message: string)
    requires Strip(message) == []
    requires KeyedValue(SplitLines("\n" + TrailerLine(prefix, changeId) + "\n"), prefix) == Some(changeId)
    ensures GetChangeId(prefix, AppendChangeId(prefix, changeId, message)) == Some(changeId)
    ensures GetChangeId(prefix, Strip(message)).None?
  {
    var tail := "\n" + TrailerLine(prefix, changeId) + "\n";
    var s := AppendChangeId(prefix, changeId, message);
    assert s == "\n" + tail && s[1..] == tail;
    assert SplitLines(s) == [[]] + SplitLines(tail);
    KeyedValueConcat([[]], SplitLines(tail), prefix);
    assert SplitLines(Strip(message)) == [];
  }

  /** `GetChangeIdAfterAppend` for a message with text: the message's lines come first. */
  lemma AppendedToText(prefix: Prefix, changeId: string, message: string)
    requires Strip(message) != []
    requires KeyedValue(SplitLines("\n" + TrailerLine(prefix, changeId) + "\n"), prefix) == Some(changeId)
    ensures GetChangeId(prefix, AppendChangeId(prefix, changeId, message)) ==
      if GetChangeId(prefix, Strip(message)).Some? then GetChangeId(prefix, Strip(message)) else Some(changeId)
  {
    var body := Strip(message);
    var tail := "\n" + TrailerLine(prefix, changeId) + "\n";
    assert AppendChangeId(prefix, changeId, message) == body + "\n" + tail;
    if IsLineBreak(body[|body| - 1]) {
      LineBreakIsSpace(body[|body| - 1]);
    }
    SplitLinesConcat(body, tail);
    KeyedValueConcat(SplitLines(body), SplitLines(tail), prefix);
  }

  /**
   * The appended id is the one read back, provided the stripped message carries no
   * trailer of its own (tests/test_main_helpers.py: append then get).
   */
  lemma GetChangeIdRoundTrip(prefix: Prefix, changeId: string, message: string)
    requires NoLineBreaks(prefix) && NoLineBreaks(changeId) && Strip(changeId) == changeId
    requires NoneStartWith(SplitLines(Strip(message)), prefix)
    ensures GetChangeId(prefix, AppendChangeId(prefix, changeId, message)) == Some(changeId)
  {
    GetChangeIdAfterAppend(prefix, changeId, message);
  }

  /** Dropping keeps exactly the lines that do not start with the prefix. */
  lemma {:induction false} DropPrefixedContents(lines: seq<string>, prefix: string)
    ensures forall k :: 0 <= k < |DropPrefixed(lines, prefix)| ==> DropPrefixed(lines, prefix)[k] in lines
    ensures forall k :: 0 <= k < |lines| && !StartsWith(lines[k], prefix) ==> lines[k] in DropPrefixed(lines, prefix)
    decreases |lines|
  {
    if lines != [] {
      DropPrefixedContents(lines[1..], prefix);
      var rest := DropPrefixed(lines[1..], prefix);
      forall k | 0 <= k < |lines| && !StartsWith(lines[k], prefix)
        ensures lines[k] in DropPrefixed(lines, prefix)
      {
        if k > 0 {
          assert lines[k] == lines[1..][k - 1];
        }
      }
      forall k | 0 <= k < |DropPrefixed(lines, prefix)| ensures DropPrefixed(lines, prefix)[k] in lines {
        var r := DropPrefixed(lines, prefix);
        if !StartsWith(lines[0], prefix) && k == 0 {
        } else {
          var k' := if StartsWith(lines[0], prefix) then k else k - 1;
          assert r[k] == rest[k'];
          assert rest[k'] in lines[1..];
        }
      }
    }
  }

  lemma {:induction false} DropPrefixedConcat(a: seq<string>, b: seq<string>, prefix: string)
    ensures DropPrefixed(a + b, prefix) == DropPrefixed(a, prefix) + DropPrefixed(b, prefix)
    decreases |a|
  {
    if a == [] {
      assert a + b == b;
    } else {
      assert (a + b)[0] == a[0];
      assert (a + b)[1..] == a[1..] + b;
      DropPrefixedConcat(a[1..], b, prefix);
    }
  }

  lemma {:induction false} DropPrefixedNone(lines: seq<string>, prefix: string)
    requires NoneStartWith(lines, prefix)
    ensures DropPrefixed(lines, prefix) == lines
    decreases |lines|
  {
    if lines != [] {
      DropPrefixedNone(lines[1..], prefix);
      assert [lines[0]] + lines[1..] == lines;
    }
  }

  lemma {:induction false} JoinAppend(a: seq<string>, b: seq<string>, sep: string)
    requires a != [] && b != []
    ensures Join(a + b, sep) == Join(a, sep) + sep + Join(b, sep)
    decreases |a|
  {
    if |a| == 1 {
      assert (a + b)[1..] == b;
    } else {
      assert (a + b)[1..] == a[1..] + b;
      JoinAppend(a[1..], b, sep);
    }
  }

  /** The `"\n"` lines of an appended message: those of the stripped message, a blank line, the trailer, and an empty last piece. */
  lemma AppendedPieces(prefix: Prefix, changeId: string, message: string)
    requires '\n' !in prefix && '\n' !in changeId
    ensures SplitOn(AppendChangeId(prefix, changeId, message), "\n") ==
      SplitOn(Strip(message), "\n") + [[], TrailerLine(prefix, changeId), []]
  {
    var body, t := Strip(message), TrailerLine(prefix, changeId);
    TrailerLineNewlineFree(prefix, changeId);
    var last := t + "\n" + [];
    var tail := [] + "\n" + last;
    assert last == t + "\n";
    assert tail == "\n" + t + "\n";
    assert body + "\n" + tail == AppendChangeId(prefix, changeId, message);
    SplitOnNewlineFree(t);
    assert SplitOn([], "\n") == [[]];
    SplitOnNewlineConcat(t, []);
    assert SplitOn(last, "\n") == [t, []];
    SplitOnNewlineConcat([], last);
    assert SplitOn(tail, "\n") == [[], t, []];
    SplitOnNewlineConcat(body, tail);
  }

  /** The trailer line holds no `'\n'` when neither the prefix nor the id does. */
  lemma TrailerLineNewlineFree(prefix: Prefix, changeId: string)
    requires '\n' !in prefix && '\n' !in changeId
    ensures '\n' !in TrailerLine(prefix, changeId)
  {
    var t := TrailerLine(prefix, changeId);
    forall k | 0 <= k < |t| ensures t[k] != '\n' {
      if k < |prefix| {
        assert t[k] == prefix[k];
      } else if k > |prefix| {
        assert t[k] == changeId[k - |prefix| - 1];
      }
    }
  }

  /**
   * Stripping an appended trailer gives back the stripped message, provided no
   * `"\n"` line of the stripped message starts with the prefix and the trailer is
   * one line (tests/test_main_helpers.py: strip).
   */
  lemma StripChangeIdRoundTrip(prefix: Prefix, changeId: string, message: string)
    requires '\n' !in prefix && '\n' !in changeId
    requires NoneStartWith(SplitOn(Strip(message), "\n"), prefix)
    ensures StripChangeId(prefix, AppendChangeId(prefix, changeId, message)) == Strip(message)
  {
    var body, t := Strip(message), TrailerLine(prefix, changeId);
    var lines := SplitOn(body, "\n");
    AppendedPieces(prefix, changeId, message);
    DropAppendedTrailer(lines, t, prefix);
    JoinSplitOn(body, "\n");
    JoinTwoBlank(lines);
    RStripDropsSpace(body, "\n\n");
    RStripOfStripped(message);
  }

  /** Dropping trailer lines from the pieces of an appended message leaves the message's pieces and two empty ones. */
  lemma DropAppendedTrailer(lines: seq<string>, t: string, prefix: Prefix)
    requires NoneStartWith(lines, prefix) && StartsWith(t, prefix)
    ensures DropPrefixed(lines + [[], t, []], prefix) == lines + [[], []]
  {
    var tail: seq<string> := [[], t, []];
    DropPrefixedConcat(lines, tail, prefix);
    DropPrefixedNone(lines, prefix);
    assert tail[1..] == [t, []] && tail[1..][1..] == [[]];
    assert DropPrefixed([[]], prefix) == [[]];
    assert DropPrefixed(tail[1..], prefix) == [[]];
    assert DropPrefixed(tail, prefix) == [[], []];
  }

  /** Two more empty pieces add `"\n\n"` to a join. */
  lemma JoinTwoBlank(lines: seq<string>)
    requires lines != []
    ensures Join(lines + [[], []], "\n") == Join(lines, "\n") + "\n\n"
  {
    JoinAppend(lines, [[], []], "\n");
    assert Join([[], []], "\n") == "\n";
  }

  /**
   * `strip_change_id` leaves no trailer: no `"\n"` line of its result starts with the
   * prefix, and the result is a join of (prefixes of) the lines it kept.
   */
  lemma StripChangeIdRemovesTrailers(prefix: Prefix, message: string)
    ensures forall k :: 0 <= k < |SplitOn(StripChangeId(prefix, message), "\n")| ==>
      !StartsWith(SplitOn(StripChangeId(prefix, message), "\n")[k], prefix)
  {
    var kept := KeptLines(prefix, message);
    var r := StripChangeId(prefix, message);
    if kept == [] {
      assert r == [];
      assert SplitOn(r, "\n") == [[]];
    } else {
      SplitOnJoin(kept);
    }
  }

  /**
   * `strip_change_id` as a rejoined list of lines: every line of the result is a
   * prefix of a kept line, so it holds no `'\n'`, no line break at all when the
   * message has no other line boundary, and never starts with the prefix.
   */
  lemma KeptLines(prefix: Prefix, message: string) returns (kept: seq<string>)
    ensures StripChangeId(prefix, message) == Join(kept, "\n")
    ensures forall k :: 0 <= k < |kept| ==> '\n' !in kept[k] && !StartsWith(kept[k], prefix)
    ensures OnlyNewlineBreaks(message) ==> forall k :: 0 <= k < |kept| ==> NoLineBreaks(kept[k])
  {
    var pieces := SplitOn(message, "\n");
    var dropped := DropPrefixed(pieces, prefix);
    SplitOnNewlinePieces(message);
    DropPrefixedContents(pieces, prefix);
    kept := RStripJoin(dropped);
    forall k | 0 <= k < |kept| ensures '\n' !in kept[k] && !StartsWith(kept[k], prefix) {
      assert dropped[k] in pieces;
      assert kept[k] <= dropped[k];
    }
    if OnlyNewlineBreaks(message) {
      SplitOnNewlinePiecesBreakFree(message);
      forall k | 0 <= k < |kept| ensures NoLineBreaks(kept[k]) {
        assert dropped[k] in pieces;
        var i :| 0 <= i < |pieces| && pieces[i] == dropped[k];
        assert NoLineBreaks(pieces[i]);
        forall c | 0 <= c < |kept[k]| ensures !IsLineBreak(kept[k][c]) {
          assert kept[k][c] == dropped[k][c];
        }
      }
    }
  }

  /**
   * When `'\n'` is the only line boundary of the message, `get_change_id` finds no
   * trailer in what `strip_change_id` leaves.
   */
  lemma GetChangeIdOfStripped(prefix: Prefix, message: string)
    requires OnlyNewlineBreaks(message)
    ensures GetChangeId(prefix, StripChangeId(prefix, message)) == None
  {
    var kept := KeptLines(prefix, message);
    SplitLinesJoin(kept);
    var lines := SplitLines(StripChangeId(prefix, message));
    forall j | 0 <= j < |lines| ensures !StartsWith(lines[j], prefix) {
      assert lines[j] == kept[j];
    }
  }

  /** A single `"\n"` line that is not a trailer and has no trailing whitespace survives `strip_change_id`. */
  lemma StripChangeIdKeepsPlainLine(prefix: Prefix, line: string)
    requires '\n' !in line && !StartsWith(line, prefix)
    requires line == [] || !IsSpace(line[|line| - 1])
    ensures StripChangeId(prefix, line) == line
  {
    SplitOnNewlineFree(line);
    assert DropPrefixed([line], prefix) == [line];
    assert Join([line], "\n") == line;
  }

  /** `splitlines` cuts at a lone carriage return. */
  lemma SplitLinesAtCarriageReturn(x: char, t: string)
    requires !IsLineBreak(x) && t != [] && NoLineBreaks(t)
    ensures SplitLines([x] + "\r" + t) == [[x], t]
  {
    var m := [x] + "\r" + t;
    assert m[1..] == "\r" + t && m[1..][1..] == t;
    SplitLinesBreakFree(t);
    assert SplitLines(m[1..]) == [[]] + [t];
    assert SplitLines(m) == [[x] + []] + [t];
    assert [x] + [] == [x];
  }

  /**
   * With another line boundary the two splittings disagree: after a carriage
   * return a trailer is hidden from `split("\n")`, so `strip_change_id` keeps it,
   * and `splitlines()` still finds it afterwards.
   */
  lemma CarriageReturnHidesTrailer(prefix: Prefix, x: char, changeId: string)
    requires NoLineBreaks(prefix) && NoLineBreaks(changeId) && Strip(changeId) == changeId && changeId != []
    requires !IsLineBreak(x) && x != prefix[0]
    ensures var m := [x] + "\r" + TrailerLine(prefix, changeId);
      StripChangeId(prefix, m) == m && GetChangeId(prefix, StripChangeId(prefix, m)) == Some(changeId)
  {
    var t := TrailerLine(prefix, changeId);
    var m := [x] + "\r" + t;
    TrailerLineBreakFree(prefix, changeId);
    assert '\n' !in m by {
      forall k | 0 <= k < |m| ensures m[k] != '\n' {
        if k >= 2 {
          assert m[k] == t[k - 2];
        }
      }
    }
    assert !StartsWith(m, prefix) by {
      assert m[0] != prefix[0];
    }
    assert m[|m| - 1] == changeId[|changeId| - 1];
    StripChangeIdKeepsPlainLine(prefix, m);
    SplitLinesAtCarriageReturn(x, t);
    assert !StartsWith([x], prefix);
    TrailerAfterLine(prefix, [x], changeId);
  }

  /** A fresh change id is trimmed and holds no line break when its namespace is so. */
  lemma CreateChangeIdIsTrimmed(branchPrefix: Option<string>, user: string, bits: Bits16)
    requires var ns := OrElse(branchPrefix, user); NoLineBreaks(ns) && (ns == [] || !IsSpace(ns[0]))
    ensures var r := CreateChangeId(branchPrefix, user, bits); r != [] && NoLineBreaks(r) && Strip(r) == r
  {
    var ns := OrElse(branchPrefix, user);
    var h := Hex4(bits);
    var r := CreateChangeId(branchPrefix, user, bits);
    assert r == ns + "/" + h;
    forall k | 0 <= k < 4 ensures !IsLineBreak(h[k]) && !IsSpace(h[k]) {
      HexDigitIsPlain(h[k]);
    }
    assert NoLineBreaks(r) by {
      forall k | 0 <= k < |r| ensures !IsLineBreak(r[k]) {
        if k < |ns| {
          assert r[k] == ns[k];
        } else if k > |ns| {
          assert r[k] == h[k - |ns| - 1];
        }
      }
    }
    assert r[|r| - 1] == h[3];
    assert r[0] == if ns == [] then '/' else ns[0];
    StripOfTrimmed(r);
  }

  /** A hexadecimal digit is neither whitespace nor a line break. */
  lemma HexDigitIsPlain(c: char)
    requires IsHexDigit(c)
    ensures !IsSpace(c) && !IsLineBreak(c)
  {
  }

  /**
   * A stamped message reports the id it is published under, when reading the
   * message and its stripped form agree and no trailer is empty.
   */
  lemma StampedMessageCarriesId(prefix: Prefix, message: string, freshId: string)
    requires NoLineBreaks(prefix) && NoLineBreaks(freshId) && Strip(freshId) == freshId
    requires GetChangeId(prefix, Strip(message)) == GetChangeId(prefix, message)
    requires GetChangeId(prefix, message) != Some([])
    ensures GetChangeId(prefix, GetOrSetChangeId(prefix, message, freshId).message) ==
      Some(GetOrSetChangeId(prefix, message, freshId).changeId)
  {
    if GetOrSetChangeId(prefix, message, freshId).rewritten {
      GetChangeIdAfterAppend(prefix, freshId, message);
    }
  }

  /**
   * Stamping twice changes nothing the second time: the id found is kept and the
   * message is left byte-identical (tests/test_update_commit_message_file.py).
   */
  lemma GetOrSetChangeIdIdempotent(prefix: Prefix, message: string, freshId: string, laterId: string)
    requires NoLineBreaks(prefix) && NoLineBreaks(freshId) && Strip(freshId) == freshId && freshId != []
    requires GetChangeId(prefix, Strip(message)) == GetChangeId(prefix, message)
    requires GetChangeId(prefix, message) != Some([])
    ensures var once := GetOrSetChangeId(prefix, message, freshId);
      GetOrSetChangeId(prefix, once.message, laterId) == Stamped(once.message, once.changeId, false)
  {
    StampedMessageCarriesId(prefix, message, freshId);
  }

  /** A message that is just a trailer line reads as that trailer's id. */
  lemma GetChangeIdOfTrailerLine(prefix: Prefix, changeId: string)
    requires NoLineBreaks(prefix) && NoLineBreaks(changeId) && Strip(changeId) == changeId
    ensures GetChangeId(prefix, TrailerLine(prefix, changeId)) == Some(changeId)
  {
    var t := TrailerLine(prefix, changeId);
    TrailerLineBreakFree(prefix, changeId);
    SplitLinesBreakFree(t);
    assert FindLine([t], prefix) == Some(0);
    TrailerValueIsId(prefix, changeId);
  }

  /** An indented trailer line is one line that does not start with the prefix. */
  lemma IndentedTrailerIsNoTrailer(prefix: Prefix, indent: string, oldId: string)
    requires NoLineBreaks(prefix) && !IsSpace(prefix[0])
    requires indent != [] && AllSpace(indent) && NoLineBreaks(indent)
    requires NoLineBreaks(oldId)
    ensures GetChangeId(prefix, indent + TrailerLine(prefix, oldId)) == None
  {
    var t := TrailerLine(prefix, oldId);
    var m := indent + t;
    TrailerLineBreakFree(prefix, oldId);
    assert NoLineBreaks(m) by {
      forall k | 0 <= k < |m| ensures !IsLineBreak(m[k]) {
        if k >= |indent| {
          assert m[k] == t[k - |indent|];
        }
      }
    }
    SplitLinesBreakFree(m);
    assert !StartsWith(m, prefix) by {
      assert m[0] == indent[0];
    }
  }

  /**
   * Leading whitespace hides a trailer from `get_change_id` but not from the
   * appended message, which strips it: the id read back is the indented one, not
   * the id appended.
   */
  lemma IndentedTrailerShadowsAppendedId(prefix: Prefix, indent: string, oldId: string, changeId: string)
    requires NoLineBreaks(prefix) && !IsSpace(prefix[0])
    requires indent != [] && AllSpace(indent) && NoLineBreaks(indent)
    requires NoLineBreaks(oldId) && Strip(oldId) == oldId && oldId != []
    requires NoLineBreaks(changeId) && Strip(changeId) == changeId
    ensures GetChangeId(prefix, indent + TrailerLine(prefix, oldId)) == None
    ensures GetChangeId(prefix, AppendChangeId(prefix, changeId, indent + TrailerLine(prefix, oldId))) == Some(oldId)
  {
    var t := TrailerLine(prefix, oldId);
    IndentedTrailerIsNoTrailer(prefix, indent, oldId);
    StripDropsLeadingSpace(indent, t);
    assert t[|t| - 1] == oldId[|oldId| - 1];
    StripOfTrimmed(t);
    GetChangeIdAfterAppend(prefix, changeId, indent + t);
    GetChangeIdOfTrailerLine(prefix, oldId);
  }

  /**
   * A trailer line with nothing after the prefix reads as the empty id, which counts
   * as absent: a fresh trailer is appended, yet the empty trailer still comes first
   * and is what every later read returns.
   */
  lemma EmptyTrailerIsNeverReplaced(prefix: Prefix, freshId: string)
    requires NoLineBreaks(prefix) && Strip(prefix) == prefix
    requires NoLineBreaks(freshId) && Strip(freshId) == freshId
    ensures GetChangeId(prefix, prefix) == Some([])
    ensures GetOrSetChangeId(prefix, prefix, freshId).rewritten
    ensures GetChangeId(prefix, GetOrSetChangeId(prefix, prefix, freshId).message) == Some([])
  {
    SplitLinesBreakFree(prefix);
    assert FindLine([prefix], prefix) == Some(0);
    assert prefix[|prefix|..] == [];
    assert Strip([]) == [];
    GetChangeIdAfterAppend(prefix, freshId, prefix);
  }
}
