/**
  The two `String.remove` extension functions of src/main/kotlin/domain/common/Util.kt.
  Both walk the delimiters in argument order and rewrite a local result each time:
  the String overload deletes every occurrence of each delimiter, the Char overload
  overwrites every occurrence of each delimiter character with NUL.
 */
module Util {

  import opened KotlinText

  const Nul: char := '\0'

  /**
    Kotlin's `replace(d, "")`: occurrences of `d` found left to right, without
    overlap, are deleted. An empty `d` leaves the string as it is.
   */
  function Delete(s: string, d: string): (r: string)
    ensures |r| <= |s|
    decreases |s|
  {
    if d == [] || |s| < |d| then s
    else if s[..|d|] == d then Delete(s[|d|..], d)
    else [s[0]] + Delete(s[1..], d)
  }

  /** The delimiters applied one after another, first to last. */
  function DeleteAll(s: string, ds: seq<string>): (r: string)
    ensures |r| <= |s|
  {
    if ds == [] then s else Delete(DeleteAll(s, ds[..|ds| - 1]), ds[|ds| - 1])
  }

  /** `String.remove(vararg delimiters: String)`. */
  method RemoveStrings(s: string, delimiters: seq<string>) returns (result: string)
    ensures result == DeleteAll(s, delimiters)
    ensures |result| <= |s|
    ensures delimiters == [] ==> result == s
  {
    result := s;
    for i := 0 to |delimiters|
      invariant result == DeleteAll(s, delimiters[..i])
    {
      assert delimiters[..i + 1][..i] == delimiters[..i];
      result := Delete(result, delimiters[i]);
    }
    assert delimiters[..|delimiters|] == delimiters;
  }

  /** `s` with every `c` left out, the others kept in order. */
  function Without(s: string, c: char): (r: string)
    ensures c !in r
    ensures forall x :: x in r <==> x in s && x != c
  {
    if s == [] then [] else if s[0] == c then Without(s[1..], c) else [s[0]] + Without(s[1..], c)
  }

  /** Deleting a one-character delimiter filters that character out. */
  lemma {:induction false} DeleteChar(s: string, c: char)
    ensures Delete(s, [c]) == Without(s, c)
  {
    if s != [] {
      DeleteChar(s[1..], c);
      assert s[..1] == [s[0]];
    }
  }

  lemma {:induction false} WithoutConcat(a: string, b: string, c: char)
    ensures Without(a + b, c) == Without(a, c) + Without(b, c)
  {
    if a == [] {
      assert a + b == b;
    } else {
      assert (a + b)[0] == a[0] && (a + b)[1..] == a[1..] + b;
      WithoutConcat(a[1..], b, c);
    }
  }

  /** A delimiter that does not occur leaves the string unchanged. */
  lemma {:induction false} DeleteAbsent(s: string, d: string)
    requires forall i: nat :: !StartsAt(s, i, d)
    ensures Delete(s, d) == s
  {
    if d != [] && |s| >= |d| {
      assert !StartsAt(s, 0, d);
      forall i: nat ensures !StartsAt(s[1..], i, d) {
        assert !StartsAt(s, i + 1, d);
        if i + |d| <= |s[1..]| {
          assert s[1..][i..i + |d|] == s[i + 1..i + 1 + |d|];
        }
      }
      DeleteAbsent(s[1..], d);
    }
  }

  /**
    Deletion is a single left-to-right pass: it can leave an occurrence behind,
    so `remove` does not promise the delimiter is gone.
   */
  lemma DeleteCanLeaveOccurrence()
    ensures Delete("aabb", "ab") == "ab"
  {
    assert "aabb"[..2] == "aa";
    assert "aabb"[1..] == "abb";
    assert "abb"[..2] == "ab";
    assert "abb"[2..] == "b";
  }

  /** Kotlin's `replace(old, new)` for characters. */
  function ReplaceChar(s: string, oldChar: char, newChar: char): (r: string)
    ensures |r| == |s|
    ensures forall k :: 0 <= k < |s| ==> r[k] == if s[k] == oldChar then newChar else s[k]
  {
    if s == [] then [] else [if s[0] == oldChar then newChar else s[0]] + ReplaceChar(s[1..], oldChar, newChar)
  }

  /** The delimiter characters overwritten one after another, first to last. */
  function Blanked(s: string, ds: seq<char>): (r: string)
    ensures |r| == |s|
    ensures forall k :: 0 <= k < |s| ==> r[k] == if s[k] in ds then Nul else s[k]
  {
    if ds == [] then s
    else
      var prefix := ds[..|ds| - 1];
      assert forall x :: x in ds <==> x in prefix || x == ds[|ds| - 1];
      ReplaceChar(Blanked(s, prefix), ds[|ds| - 1], Nul)
  }

  /** `String.remove(vararg delimiters: Char)`. */
  method BlankChars(s: string, delimiters: seq<char>) returns (result: string)
    ensures result == Blanked(s, delimiters)
  {
    result := s;
    for i := 0 to |delimiters|
      invariant result == Blanked(s, delimiters[..i])
    {
      assert delimiters[..i + 1][..i] == delimiters[..i];
      result := ReplaceChar(result, delimiters[i], Nul);
    }
    assert delimiters[..|delimiters|] == delimiters;
  }

  /** Overwriting with NUL twice is the same as once. */
  lemma BlankedIdempotent(s: string, ds: seq<char>)
    ensures Blanked(Blanked(s, ds), ds) == Blanked(s, ds)
  {
    var once := Blanked(s, ds);
    var twice := Blanked(once, ds);
    forall k | 0 <= k < |s| ensures twice[k] == once[k] {
      if s[k] in ds && Nul !in ds {
        assert once[k] == Nul;
      }
    }
  }
}
