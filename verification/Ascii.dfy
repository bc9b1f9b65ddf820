/** ASCII letter case. */
module Ascii {

  predicate IsAlphabetic(c: char) {
    'a' <= c <= 'z' || 'A' <= c <= 'Z'
  }

  function Lower(c: char): char {
    if 'A' <= c <= 'Z' then ((c as int) + 0x20) as char else c
  }

  function Upper(c: char): char {
    if 'a' <= c <= 'z' then ((c as int) - 0x20) as char else c
  }

  /** str::eq_ignore_ascii_case. */
  predicate EqualIgnoringCase(left: string, right: string) {
    |left| == |right| && forall i :: 0 <= i < |left| ==> Lower(left[i]) == Lower(right[i])
  }

  predicate IsControl(c: char) {
    (c as int) < 0x20
  }

  /** Two characters are the same but for case exactly if they are equal or the two cases of one letter. */
  lemma CaseIsAscii(a: char, b: char)
    ensures Lower(a) == Lower(b)
       <==> || a == b
            || ('a' <= a <= 'z' && 'A' <= b <= 'Z' && a as int == b as int + 0x20)
            || ('A' <= a <= 'Z' && 'a' <= b <= 'z' && b as int == a as int + 0x20)
    ensures Upper(a) == Upper(b) <==> Lower(a) == Lower(b)
  {
  }
}
