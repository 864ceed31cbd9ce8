/**
 * The clean-up of the language model's answer before it is parsed:
 * `answer.replace("```json\n", "").replace("\n```", "")`.
 */
module Fences {
  const OpenFence: string := "```json\n"
  const CloseFence: string := "\n```"

  /** `pat` occurs in `s` at some position. */
  predicate Occurs(pat: string, s: string) {
    exists i :: 0 <= i <= |s| && pat <= s[i..]
  }

  /**
   * `s.replace(pat, "")`: scanning from the left, every occurrence of `pat`
   * that does not overlap an earlier removed one is removed.
   */
  function RemoveAll(s: string, pat: string): (r: string)
    requires pat != ""
    ensures |r| <= |s|
    decreases |s|
  {
    if s == [] then []
    else if pat <= s then RemoveAll(s[|pat|..], pat)
    else [s[0]] + RemoveAll(s[1..], pat)
  }

  /** The answer with its code fences removed. */
  function StripFences(answer: string): (r: string)
    ensures |r| <= |answer|
  {
    RemoveAll(RemoveAll(answer, OpenFence), CloseFence)
  }

  /** Removing a pattern that does not occur changes nothing. */
  lemma {:induction false} RemoveAllAbsent(s: string, pat: string)
    requires pat != "" && !Occurs(pat, s)
    ensures RemoveAll(s, pat) == s
    decreases |s|
  {
    if s != [] {
      assert s[0..] == s;
      assert !Occurs(pat, s[1..]) by {
        forall i | 0 <= i <= |s[1..]| ensures !(pat <= s[1..][i..]) {
          assert s[1..][i..] == s[i + 1..];
        }
      }
      RemoveAllAbsent(s[1..], pat);
      assert s == [s[0]] + s[1..];
    }
  }

  /** An answer without fences is parsed as it came. */
  lemma StripUnfenced(answer: string)
    requires !Occurs(OpenFence, answer) && !Occurs(CloseFence, answer)
    ensures StripFences(answer) == answer
  {
    RemoveAllAbsent(answer, OpenFence);
    RemoveAllAbsent(answer, CloseFence);
  }

  /**
   * A string that ends with `pat`, and where `pat` starts nowhere before
   * that end, loses exactly that end.
   */
  lemma {:induction false} RemoveAllTrailing(u: string, pat: string)
    requires pat != ""
    requires forall i :: 0 <= i < |u| ==> !(pat <= (u + pat)[i..])
    ensures RemoveAll(u + pat, pat) == u
    decreases |u|
  {
    var s := u + pat;
    if u == [] {
      assert s == pat;
      assert s[|pat|..] == [];
    } else {
      assert s[0..] == s;
      assert s[1..] == u[1..] + pat;
      forall i | 0 <= i < |u[1..]| ensures !(pat <= (u[1..] + pat)[i..]) {
        assert (u[1..] + pat)[i..] == s[i + 1..];
      }
      RemoveAllTrailing(u[1..], pat);
      assert u == [u[0]] + u[1..];
    }
  }

  /**
   * The inverse of fencing: an answer wrapped as a JSON code block strips
   * back to its body, provided the body holds no backquote.
   */
  lemma StripFencedBlock(body: string)
    requires '`' !in body
    ensures StripFences(OpenFence + body + CloseFence) == body
  {
    var s := OpenFence + body + CloseFence;
    var t := body + CloseFence;
    assert OpenFence <= s;
    assert s[|OpenFence|..] == t;
    assert !Occurs(OpenFence, t) by {
      forall i | 0 <= i <= |t| ensures !(OpenFence <= t[i..]) {
        if i < |body| {
          assert t[i..][0] == body[i];
        }
      }
    }
    RemoveAllAbsent(t, OpenFence);
    forall i | 0 <= i < |body| ensures !(CloseFence <= t[i..]) {
      if i + 1 < |body| {
        assert t[i..][1] == body[i + 1];
      } else {
        assert t[i..][1] == CloseFence[0];
      }
    }
    RemoveAllTrailing(body, CloseFence);
  }
}
