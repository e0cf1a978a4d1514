/**
 * The normaliser: a fixed table from code points to replacement text,
 * applied with `str.translate` before the document is segmented. Every
 * character outside the table is copied unchanged.
 */
module Normalize {

  /** The seven code points the table rewrites: the five Latin ligatures
      U+FB00..U+FB04 and the two "much less/greater than" signs. */
  predicate IsKey(c: char) {
    || ('\U{FB00}' <= c <= '\U{FB04}')
    || c == '\U{226A}' || c == '\U{226B}'
  }

  /** What `translate` puts in place of `c`. */
  function Substitute(c: char): (r: string)
    ensures !IsKey(c) ==> r == [c]
    ensures IsKey(c) ==> |r| >= 2
    ensures forall k :: 0 <= k < |r| ==> !IsKey(r[k])
  {
    match c
    case '\U{FB00}' => "ff"
    case '\U{FB01}' => "fi"
    case '\U{FB02}' => "fl"
    case '\U{FB03}' => "ffi"
    case '\U{FB04}' => "ffl"
    case '\U{226A}' => "is much less than"
    case '\U{226B}' => "is much greater than"
    case _ => [c]
  }

  /** `text.translate(table)`: the result holds none of the table's keys, is
      never shorter than the input, and is the input itself when the input
      holds no key. */
  function Translate(s: string): (r: string)
    ensures forall k :: 0 <= k < |r| ==> !IsKey(r[k])
    ensures (forall k :: 0 <= k < |s| ==> !IsKey(s[k])) ==> r == s
    ensures |r| >= |s|
  {
    if s == [] then [] else Substitute(s[0]) + Translate(s[1..])
  }

  /** Translation works character by character: translating a concatenation
      is concatenating the translations. */
  lemma {:induction false} TranslateConcat(a: string, b: string)
    ensures Translate(a + b) == Translate(a) + Translate(b)
  {
    if a == [] {
      assert a + b == b;
    } else {
      assert (a + b)[1..] == a[1..] + b;
      TranslateConcat(a[1..], b);
    }
  }

  /** Each character is replaced by exactly its table entry (itself when it
      is not a key), wherever it stands. */
  lemma TranslateAround(a: string, c: char, b: string)
    ensures Translate(a + [c] + b) == Translate(a) + Substitute(c) + Translate(b)
  {
    TranslateConcat(a + [c], b);
    TranslateConcat(a, [c]);
    TranslateOne(c);
  }

  lemma TranslateOne(c: char)
    ensures Translate([c]) == Substitute(c)
  {
    assert [c][0] == c && [c][1..] == [];
    assert Translate([c]) == Substitute(c) + Translate([]);
  }
}
