/** The two string operations the searches rely on: lowercasing
    (`str.lower`, restricted to ASCII letters) and the substring test
    (`keyword in text`). */
module Text {

  predicate IsUpper(c: char) {
    'A' <= c <= 'Z'
  }

  /** One character lowercased: an ASCII capital becomes its small letter,
      every other character is kept. */
  function LowerChar(c: char): (r: char)
    ensures !IsUpper(r)
    ensures IsUpper(c) ==> r as int == c as int + 32
    ensures !IsUpper(c) ==> r == c
  {
    if IsUpper(c) then (c as int - 'A' as int + 'a' as int) as char else c
  }

  /** `s.lower()` restricted to ASCII: each capital letter becomes its
      small letter, every other character is kept, and the length is kept. */
  function Lower(s: string): (r: string)
    ensures |r| == |s|
    ensures forall i :: 0 <= i < |s| ==> !IsUpper(r[i])
    ensures forall i :: 0 <= i < |s| && IsUpper(s[i]) ==> r[i] as int == s[i] as int + 32
    ensures forall i :: 0 <= i < |s| && !IsUpper(s[i]) ==> r[i] == s[i]
  {
    seq(|s|, i requires 0 <= i < |s| => LowerChar(s[i]))
  }

  /** Lowercasing twice is lowercasing once. */
  lemma LowerIdempotent(s: string)
    ensures Lower(Lower(s)) == Lower(s)
  {
    var l := Lower(s);
    assert |Lower(l)| == |l|;
    forall i | 0 <= i < |l| ensures Lower(l)[i] == l[i] {
      assert !IsUpper(l[i]);
    }
  }

  /** `p` is a prefix of `s`. */
  predicate IsPrefix(p: string, s: string) {
    |p| <= |s| && s[..|p|] == p
  }

  /** `needle in hay`: some suffix of `hay` starts with `needle`. */
  predicate IsSubstring(needle: string, hay: string)
    ensures IsSubstring(needle, hay) ==> |needle| <= |hay|
    decreases |hay|
  {
    IsPrefix(needle, hay) || (|hay| > 0 && IsSubstring(needle, hay[1..]))
  }

  /** `needle` occurs in `hay` starting at position `i`. */
  predicate OccursAt(needle: string, hay: string, i: int) {
    0 <= i <= |hay| - |needle| && hay[i..i + |needle|] == needle
  }

  /** `needle in hay` holds exactly when `needle` occurs at some position. */
  lemma {:induction false} IsSubstringAt(needle: string, hay: string)
    ensures IsSubstring(needle, hay) <==> exists i :: OccursAt(needle, hay, i)
    decreases |hay|
  {
    if |hay| > 0 {
      IsSubstringAt(needle, hay[1..]);
    }
    if IsSubstring(needle, hay) {
      if IsPrefix(needle, hay) {
        assert OccursAt(needle, hay, 0);
      } else {
        var i :| OccursAt(needle, hay[1..], i);
        SliceOfTail(hay, i + 1, |needle|);
        assert OccursAt(needle, hay, i + 1);
      }
    }
    forall i | OccursAt(needle, hay, i) ensures IsSubstring(needle, hay) {
      if i == 0 {
        assert IsPrefix(needle, hay);
      } else {
        SliceOfTail(hay, i, |needle|);
        assert OccursAt(needle, hay[1..], i - 1);
      }
    }
  }

  /** A slice of `hay` that starts after its first character is the
      matching slice of `hay[1..]`. */
  lemma SliceOfTail(hay: string, i: int, n: nat)
    requires 1 <= i && i + n <= |hay|
    ensures hay[i..i + n] == hay[1..][i - 1..i - 1 + n]
  {
    var a, b := hay[i..i + n], hay[1..][i - 1..i - 1 + n];
    forall j | 0 <= j < n ensures a[j] == b[j] {
      assert a[j] == hay[i + j] && b[j] == hay[1..][i - 1 + j];
    }
  }

  /** The empty keyword occurs in every string. */
  lemma EmptyIsSubstring(hay: string)
    ensures IsSubstring("", hay)
  {
    assert IsPrefix("", hay);
  }
}
