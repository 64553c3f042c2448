/**
 * The replacement installed for `console.warn` (capture.ts lines 8-14): a
 * warning is dropped when the text of its first argument mentions one of
 * two noisy pdf.js messages, and forwarded otherwise.
 */
module WarnFilter {

  /** `t` occurs in `s` starting at position `i`. */
  predicate OccursAt(s: string, t: string, i: nat) {
    i + |t| <= |s| && s[i..i + |t|] == t
  }

  /** `s.includes(t)`, searching from the left. */
  function Includes(s: string, t: string): (b: bool)
    ensures b <==> exists i: nat :: OccursAt(s, t, i)
    decreases |s|
  {
    if |t| > |s| then false
    else if s[..|t|] == t then
      assert OccursAt(s, t, 0);
      true
    else
      var b := Includes(s[1..], t);
      assert b ==> exists i: nat :: OccursAt(s, t, i) by {
        if b {
          var i: nat :| OccursAt(s[1..], t, i);
          assert s[i + 1..i + 1 + |t|] == s[1..][i..i + |t|];
          assert OccursAt(s, t, i + 1);
        }
      }
      assert (exists i: nat :: OccursAt(s, t, i)) ==> b by {
        if exists i: nat :: OccursAt(s, t, i) {
          var i: nat :| OccursAt(s, t, i);
          assert i != 0;
          assert s[1..][i - 1..i - 1 + |t|] == s[i..i + |t|];
          assert OccursAt(s[1..], t, i - 1);
        }
      }
      b
  }

  const UnknownError := "UnknownErrorException"
  const StandardFontData := "standardFontDataUrl"

  /**
   * The text `String(args[0])`: the first argument, already converted to a
   * string, or "undefined" when `console.warn` is called with none.
   */
  function FirstArgumentText(args: seq<string>): string {
    if args == [] then "undefined" else args[0]
  }

  /** Line 10: the warning with this text is dropped. */
  predicate Suppressed(msg: string) {
    Includes(msg, UnknownError) || Includes(msg, StandardFontData)
  }

  /** Lines 8-14: whether the call reaches the original `console.warn`. */
  predicate Forwarded(args: seq<string>) {
    !Suppressed(FirstArgumentText(args))
  }

  /** A warning is dropped exactly when one of the two phrases occurs in its text. */
  lemma SuppressedIff(msg: string)
    ensures Suppressed(msg) <==>
      (exists i: nat :: OccursAt(msg, UnknownError, i)) || (exists i: nat :: OccursAt(msg, StandardFontData, i))
  {
  }

  /** Text around a suppressed message does not bring it back. */
  lemma {:induction false} SuppressedInContext(before: string, msg: string, after: string)
    requires Suppressed(msg)
    ensures Suppressed(before + msg + after)
  {
    var s := before + msg + after;
    var phrase := if Includes(msg, UnknownError) then UnknownError else StandardFontData;
    assert Includes(msg, phrase);
    var i: nat :| OccursAt(msg, phrase, i);
    assert s[|before| + i..|before| + i + |phrase|] == msg[i..i + |phrase|];
    assert OccursAt(s, phrase, |before| + i);
    assert Includes(s, phrase);
  }

  /** Only the first argument is looked at; later ones are never filtered on. */
  lemma OnlyFirstArgumentCounts(first: string, rest: seq<string>)
    ensures Forwarded([first] + rest) == !Suppressed(first)
    ensures Forwarded([])
    ensures Forwarded(["fine", UnknownError])
  {
    assert !Suppressed("undefined") by {
      assert !Includes("undefined", UnknownError);
      assert !Includes("undefined", StandardFontData);
    }
    assert !Suppressed("fine") by {
      assert !Includes("fine", UnknownError);
      assert !Includes("fine", StandardFontData);
    }
  }
}
