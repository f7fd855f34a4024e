/** The clean-up applied to the classification model's reply before it is parsed
    as JSON (server/controllers/videoController.js, line 71): every "```json" is
    removed, then every remaining "```", wherever they stand in the text, and the
    result is trimmed. */
module FenceCleanup {
  import opened Text

  /** A fenced-block opener with the `json` language tag. */
  const JsonFence: string := "```json"

  /** A bare markdown code fence. */
  const Fence: string := "```"

  /** `responseText.replace(/```json/g, '').replace(/```/g, '').trim()`. The
      result holds no code fence anywhere and has no whitespace at either end. */
  function CleanFences(text: string): (r: string)
    ensures !Contains(r, Fence)
    ensures r != [] ==> !IsJsWhitespace(r[0]) && !IsJsWhitespace(r[|r| - 1])
  {
    var unfenced := ReplaceAll(ReplaceAll(text, JsonFence, ""), Fence, "");
    NoFenceAfterRemoval(ReplaceAll(text, JsonFence, ""));
    TrimKeepsAbsence(unfenced, Fence);
    Trim(unfenced)
  }

  /** Removing fences never touches a leading character that is not a backtick. */
  lemma FirstCharSurvives(t: string)
    requires t != [] && t[0] != '`'
    ensures ReplaceAll(t, Fence, "") != [] && ReplaceAll(t, Fence, "")[0] == t[0]
  {
    assert !StartsWith(t, Fence) by {
      if |Fence| <= |t| { assert t[..|Fence|][0] == t[0]; }
    }
  }

  /** After every "```" has been removed left to right, no "```" is left: a run
      of k backticks keeps only k mod 3 of them, and runs stay separated by the
      characters that were between them. */
  lemma {:induction false} NoFenceAfterRemoval(s: string)
    ensures !Contains(ReplaceAll(s, Fence, ""), Fence)
    decreases |s|
  {
    var r := ReplaceAll(s, Fence, "");
    if s == [] {
    } else if StartsWith(s, Fence) {
      NoFenceAfterRemoval(s[|Fence|..]);
      assert r == ReplaceAll(s[|Fence|..], Fence, "");
    } else {
      var t := s[1..];
      var rt := ReplaceAll(t, Fence, "");
      NoFenceAfterRemoval(t);
      assert r == [s[0]] + rt;
      // No fence starts inside the tail: that would be a fence in `rt`.
      forall i | 1 <= i <= |r| - |Fence|
        ensures !OccursAt(r, Fence, i)
      {
        assert !OccursAt(rt, Fence, i - 1);
        var k :| 0 <= k < |Fence| && rt[i - 1 + k] != Fence[k];
        assert r[i + k] == rt[i - 1 + k];
      }
      // No fence starts at index 0: one of the first three characters is not a backtick.
      if s[0] != '`' {
        assert r[0] != Fence[0];
      } else if t == [] {
        assert rt == [];
      } else if t[0] != '`' {
        FirstCharSurvives(t);
        assert r[1] != Fence[1];
      } else if |t| == 1 {
        assert rt == [t[0]];
      } else {
        assert t[1] != '`' by {
          assert s[..|Fence|] == [s[0], s[1], s[2]];
          assert s[..|Fence|] != Fence;
        }
        assert !StartsWith(t, Fence) by {
          if |Fence| <= |t| { assert t[..|Fence|][1] == t[1]; }
        }
        assert rt == [t[0]] + ReplaceAll(t[1..], Fence, "");
        FirstCharSurvives(t[1..]);
        assert r[2] != Fence[2];
      }
      assert !OccursAt(r, Fence, 0);
    }
  }

  /** On a reply without any backtick the clean-up is just `trim`. */
  lemma CleanFencesWithoutBackticks(text: string)
    requires '`' !in text
    ensures CleanFences(text) == Trim(text)
  {
    ReplaceAllWithoutFirstChar(text, JsonFence, "");
    ReplaceAllWithoutFirstChar(text, Fence, "");
  }

  /** A reply wrapped as a fenced `json` block loses the whole wrapping. */
  lemma CleanFencedJsonBlock(body: string)
    requires '`' !in body
    ensures CleanFences(JsonFence + body + Fence) == Trim(body)
  {
    var text := JsonFence + body + Fence;
    assert StartsWith(text, JsonFence);
    assert text[|JsonFence|..] == body + Fence;
    ReplaceAllSkipsPrefix(body, Fence, JsonFence, "");
    assert ReplaceAll(Fence, JsonFence, "") == Fence;
    assert ReplaceAll(text, JsonFence, "") == body + Fence;
    ReplaceAllSkipsPrefix(body, Fence, Fence, "");
    assert StartsWith(Fence, Fence);
    assert ReplaceAll(Fence, Fence, "") == [];
    assert body + Fence + [] == body + Fence;
    assert ReplaceAll(body + Fence, Fence, "") == body;
  }

  /** Fences are removed anywhere, not only around the reply: a "```json"
      between two pieces of text simply joins them. */
  lemma CleanFencesAnywhere(text: string, before: string, after: string)
    requires '`' !in before && '`' !in after
    requires text == before + JsonFence + after
    ensures CleanFences(text) == Trim(before + after)
  {
    var tail := JsonFence + after;
    assert text == before + tail;
    ReplaceAllAtStart(JsonFence, after, "");
    ReplaceAllWithoutFirstChar(after, JsonFence, "");
    assert ReplaceAll(tail, JsonFence, "") == after;
    ReplaceAllSkipsPrefix(before, tail, JsonFence, "");
    var joined := before + after;
    assert ReplaceAll(text, JsonFence, "") == joined;
    ReplaceAllWithoutFirstChar(joined, Fence, "");
  }
}
