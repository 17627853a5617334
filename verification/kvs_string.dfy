/** C strings and the order that strcmp puts on them. */
module KvsString {
  /** The characters before the terminator, as values of a signed `char`. */
  type cstring = s: seq<int> | forall i :: 0 <= i < |s| ==> -128 <= s[i] < 128 && s[i] != 0

  type Value = cstring

  /** What a store holds. */
  type Contents = map<cstring, Value>

  /** strcmp compares characters as unsigned. */
  function Unsigned(c: int): int { if c < 0 then c + 256 else c }

  function StrCmp(a: cstring, b: cstring): int
    decreases |a|
  {
    if a == [] then (if b == [] then 0 else -1)
    else if b == [] then 1
    else if a[0] == b[0] then StrCmp(a[1..], b[1..])
    else Unsigned(a[0]) - Unsigned(b[0])
  }

  predicate Less(a: cstring, b: cstring) { StrCmp(a, b) < 0 }

  lemma {:induction false} StrCmpZero(a: cstring, b: cstring)
    ensures StrCmp(a, b) == 0 <==> a == b
    decreases |a|
  {
    if a != [] && b != [] && a[0] == b[0] {
      StrCmpZero(a[1..], b[1..]);
      assert a == [a[0]] + a[1..] && b == [b[0]] + b[1..];
    }
  }

  lemma {:induction false} StrCmpFlips(a: cstring, b: cstring)
    ensures StrCmp(a, b) == -StrCmp(b, a)
    decreases |a|
  {
    if a != [] && b != [] && a[0] == b[0] {
      StrCmpFlips(a[1..], b[1..]);
    }
  }

  lemma {:induction false} LessTransitive(a: cstring, b: cstring, c: cstring)
    requires Less(a, b) && Less(b, c)
    ensures Less(a, c)
    decreases |a|
  {
    if a != [] && b != [] && c != [] && a[0] == b[0] == c[0] {
      LessTransitive(a[1..], b[1..], c[1..]);
    }
  }

  /** Exactly one of less, equal and greater. */
  lemma Trichotomy(a: cstring, b: cstring)
    ensures a == b || Less(a, b) || Less(b, a)
    ensures !(Less(a, b) && Less(b, a)) && !Less(a, a)
    ensures StrCmp(a, b) > 0 <==> Less(b, a)
    ensures StrCmp(a, b) == 0 <==> a == b
  {
    StrCmpZero(a, b);
    StrCmpZero(a, a);
    StrCmpFlips(a, b);
  }
}
