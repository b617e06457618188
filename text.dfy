/**
 * The two string primitives the hierarchy's name search relies on:
 * `String.prototype.toLowerCase` and `String.prototype.includes`.
 * Lower-casing is modelled on the ASCII range only.
 */
module Text {

  /** Lower-cases one character: 'A'..'Z' become 'a'..'z', everything else is kept. */
  function LowerChar(c: char): char
  {
    if 'A' <= c <= 'Z' then (c as int + 32) as char else c
  }

  /** `s.toLowerCase()`, character by character. */
  function Lower(s: string): (r: string)
    ensures |r| == |s|
    ensures forall i :: 0 <= i < |s| ==> r[i] == LowerChar(s[i])
  {
    seq(|s|, i requires 0 <= i < |s| => LowerChar(s[i]))
  }

  /** `needle` occurs in `hay` starting at offset `i`. */
  predicate OccursAt(hay: string, needle: string, i: int)
  {
    0 <= i && i + |needle| <= |hay| && hay[i..i + |needle|] == needle
  }

  /** `hay.includes(needle)`: `needle` is a prefix of some suffix of `hay`. */
  predicate Contains(hay: string, needle: string)
    decreases |hay|
  {
    needle <= hay || (|hay| > 0 && Contains(hay[1..], needle))
  }

  /** An occurrence at any offset makes `Contains` true. */
  lemma {:induction false} OccursImpliesContains(hay: string, needle: string, i: int)
    requires OccursAt(hay, needle, i)
    ensures Contains(hay, needle)
    decreases i
  {
    if i == 0 {
      assert hay[..|needle|] == needle;
    } else {
      assert hay[1..][i - 1..i - 1 + |needle|] == hay[i..i + |needle|];
      OccursImpliesContains(hay[1..], needle, i - 1);
    }
  }

  /** `Contains` holds exactly when the needle occurs at some offset. */
  lemma {:induction false} ContainsIffOccurs(hay: string, needle: string)
    ensures Contains(hay, needle) <==> exists i :: OccursAt(hay, needle, i)
    decreases |hay|
  {
    if exists i :: OccursAt(hay, needle, i) {
      var i :| OccursAt(hay, needle, i);
      OccursImpliesContains(hay, needle, i);
    }
    if needle <= hay {
      assert OccursAt(hay, needle, 0);
    } else if |hay| > 0 && Contains(hay[1..], needle) {
      ContainsIffOccurs(hay[1..], needle);
      var i :| OccursAt(hay[1..], needle, i);
      assert hay[1..][i..i + |needle|] == hay[i + 1..i + 1 + |needle|];
      assert OccursAt(hay, needle, i + 1);
    }
  }

  /** The empty string is contained in every string, as `includes('')` is always true. */
  lemma EmptyIsContained(hay: string)
    ensures Contains(hay, "")
  {
  }

  /** Lower-casing twice is lower-casing once. */
  lemma LowerIdempotent(s: string)
    ensures Lower(Lower(s)) == Lower(s)
  {
  }

  /** A contained non-empty needle's first character occurs in the haystack. */
  lemma {:induction false} ContainedFirstChar(hay: string, needle: string)
    requires Contains(hay, needle) && |needle| > 0
    ensures needle[0] in hay
    decreases |hay|
  {
    if !(needle <= hay) {
      ContainedFirstChar(hay[1..], needle);
      assert hay[1..] <= hay[1..];
    } else {
      assert hay[0] == needle[0];
    }
  }
}
