/**
 * The Change-Id trailer codec of the older git-publish (gp/main.py).
 *
 * The older reader looks only at the last paragraph of the message (the last piece of
 * `split("\n\n")`, which scans left to right, so after an odd run of newlines the
 * last paragraph keeps one `"\n"`), takes its first `splitlines()` line that starts with
 * `Change-Id:`, and cuts the key off with `lstrip("Change-Id:")`, which removes
 * every leading character that occurs in `Change-Id:`, not the key as a prefix.
 * The older change id is `<user>-<four lowercase hex digits>`.
 */
module LegacyChangeId {
  import opened Wrappers
  import opened PyStr
  import opened ChangeId

  /** The last paragraph: `message.split("\n\n")[-1]`. */
  function LastParagraph(message: string): string {
    var paragraphs := SplitOn(message, "\n\n");
    paragraphs[|paragraphs| - 1]
  }

  /**
   * The last paragraph is a tail of the message without a blank line in it: the whole
   * message, or what follows a `"\n\n"`.
   */
  lemma LastParagraphIsTail(message: string)
    ensures var r := LastParagraph(message);
      && NoBlankLine(r)
      && (r == message || (|message| >= |r| + 2 && message[|message| - |r| - 2..] == "\n\n" + r))
  {
    var paragraphs := SplitOn(message, "\n\n");
    SplitOnLastPiece(message, "\n\n");
    SplitOnLastPieceFree(message, "\n\n");
    ParagraphFreeNoBlankLine(paragraphs[|paragraphs| - 1]);
  }

  /** `get_change_id` of the older version. */
  function LegacyGetChangeId(message: string): (r: Option<string>)
    ensures r.None? <==> NoneStartWith(SplitLines(LastParagraph(message)), DefaultPrefix)
    ensures r.Some? ==> FirstWith(SplitLines(LastParagraph(message)), DefaultPrefix, FindLine(SplitLines(LastParagraph(message)), DefaultPrefix).value)
    ensures r.Some? ==>
      r.value == Strip(LStripChars(SplitLines(LastParagraph(message))[FindLine(SplitLines(LastParagraph(message)), DefaultPrefix).value], DefaultPrefix))
  {
    var lines := SplitLines(LastParagraph(message));
    match FindLine(lines, DefaultPrefix)
    case None => None
    case Some(i) => Some(Strip(LStripChars(lines[i], DefaultPrefix)))
  }

  /**
   * `create_change_id` of the older version: the user name, a dash, and `bits` as
   * four lowercase hex digits.
   */
  function LegacyCreateChangeId(user: string, bits: Bits16): (r: string)
    ensures |r| == |user| + 5 && r[..|user|] == user && r[|user|] == '-'
    ensures forall k :: |user| < k < |r| ==> IsHexDigit(r[k])
    ensures HexValue(r[|user| + 1..]) == bits
  {
    var r := user + "-" + Hex4(bits);
    assert r[|user| + 1..] == Hex4(bits);
    r
  }

  /**
   * `update_commit_message` (the message transformation): the message is left alone
   * when it carries a non-empty id, and otherwise becomes the stripped message, a
   * blank line and `Change-Id: <freshId>`, which is the current version's append with
   * the default prefix.
   */
  function LegacyUpdateCommitMessage(message: string, freshId: string): (r: string)
    ensures LegacyGetChangeId(message).Some? && LegacyGetChangeId(message).value != [] ==> r == message
    ensures LegacyGetChangeId(message).None? || LegacyGetChangeId(message).value == [] ==>
      r == AppendChangeId(DefaultPrefix, freshId, message)
  {
    var found := LegacyGetChangeId(message);
    if found.Some? && found.value != [] then message else AppendChangeId(DefaultPrefix, freshId, message)
  }

  // ----- lemmas -----

  /** The older update writes exactly `message.strip() + "\n\nChange-Id: " + id + "\n"`. */
  lemma LegacyAppendText(changeId: string, message: string)
    ensures AppendChangeId(DefaultPrefix, changeId, message) == Strip(message) + "\n\nChange-Id: " + changeId + "\n"
  {
    assert "\n\n" + DefaultPrefix + " " == "\n\nChange-Id: ";
  }

  /**
   * Only the last paragraph counts: whatever precedes a paragraph break (one not
   * glued to a preceding newline), trailers included, is ignored.
   */
  lemma LegacyGetChangeIdLastParagraph(before: string, after: string)
    requires before == [] || before[|before| - 1] != '\n'
    ensures LegacyGetChangeId(before + "\n\n" + after) == LegacyGetChangeId(after)
  {
    LastParagraphConcat(before, after);
  }

  lemma LastParagraphConcat(before: string, after: string)
    requires before == [] || before[|before| - 1] != '\n'
    ensures LastParagraph(before + "\n\n" + after) == LastParagraph(after)
  {
    var pb := SplitOn(after, "\n\n");
    SplitOnParagraphConcat(before, after);
    LastParagraphOfPieces(before + "\n\n" + after, SplitOn(before, "\n\n"), pb);
    LastParagraphOfPieces(after, [], pb);
  }

  /** When `message` splits into `a + b`, the last paragraph is the last piece of `b`. */
  lemma LastParagraphOfPieces(message: string, a: seq<string>, b: seq<string>)
    requires b != [] && SplitOn(message, "\n\n") == a + b
    ensures LastParagraph(message) == b[|b| - 1]
  {
    var c := a + b;
    assert c[|c| - 1] == b[|b| - 1];
  }

  /** No character of the key is whitespace. */
  lemma KeyCharNotSpace(c: char)
    requires c in DefaultPrefix
    ensures !IsSpace(c) && !IsLineBreak(c)
  {
  }

  /** `lstrip` of the key eats the key and stops at the space that follows it. */
  lemma LStripKeyBeforeSpace(rest: string)
    ensures LStripChars(DefaultPrefix + " " + rest, DefaultPrefix) == " " + rest
  {
    assert ' ' !in DefaultPrefix;
    LStripStopsAfterKey(DefaultPrefix, ' ', rest);
    assert DefaultPrefix + " " + rest == DefaultPrefix + [' '] + rest;
  }

  /** `lstrip(key)` of the key followed by a character outside it stops at that character. */
  lemma LStripStopsAfterKey(key: string, c: char, rest: string)
    requires c !in key
    ensures LStripChars(key + [c] + rest, key) == [c] + rest
  {
    LStripCharsSkip(key, [c] + rest, key);
    assert key + [c] + rest == key + ([c] + rest);
  }

  /** `lstrip(chars)` skips a leading run of those characters. */
  lemma {:induction false} LStripCharsSkip(run: string, s: string, chars: string)
    requires forall k :: 0 <= k < |run| ==> run[k] in chars
    ensures LStripChars(run + s, chars) == LStripChars(s, chars)
    decreases |run|
  {
    if run == [] {
      assert run + s == s;
    } else {
      assert (run + s)[0] == run[0];
      assert (run + s)[1..] == run[1..] + s;
      LStripCharsSkip(run[1..], s, chars);
    }
  }

  /** The older append writes a last paragraph that is just the trailer line. */
  lemma LegacyAppendedParagraph(changeId: string, message: string)
    requires NoLineBreaks(changeId)
    ensures LastParagraph(AppendChangeId(DefaultPrefix, changeId, message)) == TrailerLine(DefaultPrefix, changeId) + "\n"
  {
    var body, t := Strip(message), TrailerLine(DefaultPrefix, changeId);
    var u := t + "\n";
    assert body == [] || body[|body| - 1] != '\n' by {
      if body != [] {
        LineBreakIsSpace('\n');
      }
    }
    assert AppendChangeId(DefaultPrefix, changeId, message) == body + "\n\n" + u;
    LastParagraphConcat(body, u);
    TrailerLineBreakFree(DefaultPrefix, changeId);
    assert NoBlankLine(u) by {
      forall i | 0 <= i < |u| - 1 ensures u[i] != '\n' {
        assert u[i] == t[i];
      }
    }
    LastParagraphOfOne(u);
  }

  /** Text without a blank line is its own last paragraph. */
  lemma LastParagraphOfOne(u: string)
    requires NoBlankLine(u)
    ensures LastParagraph(u) == u
  {
    SplitOnParagraphFree(u);
  }

  /**
   * Round trip of the older codec for every message: the appended id is read back,
   * whatever trailers the message had before, since only the last paragraph counts.
   */
  lemma LegacyGetChangeIdRoundTrip(changeId: string, message: string)
    requires NoLineBreaks(changeId) && Strip(changeId) == changeId
    ensures LegacyGetChangeId(AppendChangeId(DefaultPrefix, changeId, message)) == Some(changeId)
  {
    var t := TrailerLine(DefaultPrefix, changeId);
    LegacyAppendedParagraph(changeId, message);
    TrailerLineBreakFree(DefaultPrefix, changeId);
    SplitLinesBreakFree(t);
    SplitLinesConcat(t, []);
    assert t + "\n" + [] == t + "\n";
    assert SplitLines(t + "\n") == [t];
    assert FindLine([t], DefaultPrefix) == Some(0);
    LStripKeyBeforeSpace(changeId);
    StripSpaceCons(' ', changeId);
  }

  /** Updating an updated message changes nothing more (gp/main.py: update keeps a found id). */
  lemma LegacyUpdateIdempotent(message: string, freshId: string, laterId: string)
    requires NoLineBreaks(freshId) && Strip(freshId) == freshId && freshId != []
    ensures var once := LegacyUpdateCommitMessage(message, freshId);
      LegacyUpdateCommitMessage(once, laterId) == once
  {
    var found := LegacyGetChangeId(message);
    if !(found.Some? && found.value != []) {
      LegacyGetChangeIdRoundTrip(freshId, message);
    }
  }

  /**
   * `lstrip("Change-Id:")` is not prefix removal: a trailer written without the
   * space, whose id uses only characters of the key, reads as the empty id in the
   * older codec, while the current codec reads the id itself.
   */
  lemma LStripEatsGluedId(id: string)
    requires id != [] && forall k :: 0 <= k < |id| ==> id[k] in DefaultPrefix
    ensures LegacyGetChangeId(DefaultPrefix + id) == Some([])
    ensures GetChangeId(DefaultPrefix, DefaultPrefix + id) == Some(id)
  {
    var m := DefaultPrefix + id;
    GluedTrailerIsOneLine(id);
    assert FindLine([m], DefaultPrefix) == Some(0);
    LStripCharsAll(m, DefaultPrefix);
    assert m[|DefaultPrefix|..] == id;
    KeyCharNotSpace(id[0]);
    KeyCharNotSpace(id[|id| - 1]);
    StripOfTrimmed(id);
  }

  /** A key glued to an id made of key characters is one line, one paragraph, of key characters only. */
  lemma GluedTrailerIsOneLine(id: string)
    requires forall k :: 0 <= k < |id| ==> id[k] in DefaultPrefix
    ensures var m := DefaultPrefix + id;
      && (forall k :: 0 <= k < |m| ==> m[k] in DefaultPrefix)
      && LastParagraph(m) == m && SplitLines(m) == [m]
  {
    var m := DefaultPrefix + id;
    forall k | 0 <= k < |m| ensures m[k] in DefaultPrefix && !IsLineBreak(m[k]) {
      if k < |DefaultPrefix| {
        assert m[k] == DefaultPrefix[k];
      } else {
        assert m[k] == id[k - |DefaultPrefix|];
      }
      KeyCharNotSpace(m[k]);
    }
    assert NoBlankLine(m);
    SplitOnParagraphFree(m);
    SplitLinesBreakFree(m);
  }

  /** `lstrip(chars)` of a string made of those characters is empty. */
  lemma {:induction false} LStripCharsAll(s: string, chars: string)
    requires forall k :: 0 <= k < |s| ==> s[k] in chars
    ensures LStripChars(s, chars) == []
    decreases |s|
  {
    if s != [] {
      LStripCharsAll(s[1..], chars);
    }
  }
}
