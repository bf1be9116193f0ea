/** SafeFileName.MakeSafe: replace every invalid file-name character. The regular
    expression in the source is one character class over the invalid set, so it
    matches single characters and Replace substitutes each match in turn. */
module SafeFileName {
  import opened Strings

  const DefaultReplacement: string := "_"

  /** What one character of the input becomes. */
  function Substitute(c: char, invalid: set<char>, replacement: string): string {
    if c in invalid then replacement else [c]
  }

  /** Every character of the result is a valid character of the name or one of
      the replacement's: an invalid character is never kept. */
  function MakeSafe(fileName: string, invalid: set<char>, replacement: string): (r: string)
    ensures forall c :: c in r ==> c in replacement || (c in fileName && c !in invalid)
  {
    if fileName == [] then ""
    else
      var rest := MakeSafe(fileName[1..], invalid, replacement);
      assert forall c :: c in fileName[1..] ==> c in fileName;
      Substitute(fileName[0], invalid, replacement) + rest
  }

  /** The substitution works piece by piece: it keeps the order of the input. */
  lemma {:induction false} MakeSafeAppend(a: string, b: string, invalid: set<char>, replacement: string)
    ensures MakeSafe(a + b, invalid, replacement) == MakeSafe(a, invalid, replacement) + MakeSafe(b, invalid, replacement)
    decreases |a|
  {
    if a != [] {
      assert (a + b)[0] == a[0];
      assert (a + b)[1..] == a[1..] + b;
      MakeSafeAppend(a[1..], b, invalid, replacement);
    } else {
      assert a + b == b;
    }
  }

  /** A one-character replacement keeps the length: each position holds the
      replacement when the input character there is invalid, and that character
      otherwise. */
  lemma {:induction false} MakeSafePointwise(s: string, invalid: set<char>, replacement: string)
    requires |replacement| == 1
    ensures |MakeSafe(s, invalid, replacement)| == |s|
    ensures forall i :: 0 <= i < |s| ==>
      MakeSafe(s, invalid, replacement)[i] == (if s[i] in invalid then replacement[0] else s[i])
  {
    if s != [] {
      MakeSafePointwise(s[1..], invalid, replacement);
      var r := MakeSafe(s, invalid, replacement);
      assert r == Substitute(s[0], invalid, replacement) + MakeSafe(s[1..], invalid, replacement);
      forall i | 0 <= i < |s|
        ensures r[i] == (if s[i] in invalid then replacement[0] else s[i])
      {
        if i > 0 {
          assert r[i] == MakeSafe(s[1..], invalid, replacement)[i - 1];
          assert s[1..][i - 1] == s[i];
        }
      }
    }
  }

  /** A name without invalid characters comes back unchanged. */
  lemma {:induction false} MakeSafeUnchanged(s: string, invalid: set<char>, replacement: string)
    requires !ContainsAny(s, invalid)
    ensures MakeSafe(s, invalid, replacement) == s
  {
    if s != [] {
      assert s[0] !in invalid;
      assert !ContainsAny(s[1..], invalid) by {
        forall i | 0 <= i < |s[1..]| ensures s[1..][i] !in invalid {
          assert s[1..][i] == s[i + 1];
        }
      }
      MakeSafeUnchanged(s[1..], invalid, replacement);
      assert s == [s[0]] + s[1..];
    }
  }

  /** When the replacement holds no invalid character, neither does the result. */
  lemma {:induction false} MakeSafeClean(s: string, invalid: set<char>, replacement: string)
    requires !ContainsAny(replacement, invalid)
    ensures !ContainsAny(MakeSafe(s, invalid, replacement), invalid)
  {
    if s != [] {
      MakeSafeClean(s[1..], invalid, replacement);
      var head := Substitute(s[0], invalid, replacement);
      var tail := MakeSafe(s[1..], invalid, replacement);
      assert !ContainsAny(head, invalid);
      forall i | 0 <= i < |head + tail| ensures (head + tail)[i] !in invalid {
        if i >= |head| {
          assert (head + tail)[i] == tail[i - |head|];
        }
      }
    }
  }

  /** Making a name safe twice changes nothing more, whenever the replacement is
      itself safe (the default "_" is on both platforms). */
  lemma MakeSafeIdempotent(s: string, invalid: set<char>, replacement: string)
    requires !ContainsAny(replacement, invalid)
    ensures MakeSafe(MakeSafe(s, invalid, replacement), invalid, replacement) == MakeSafe(s, invalid, replacement)
  {
    MakeSafeClean(s, invalid, replacement);
    MakeSafeUnchanged(MakeSafe(s, invalid, replacement), invalid, replacement);
  }
}
