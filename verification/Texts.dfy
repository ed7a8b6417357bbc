/**
  Text made of fields: numbers in decimal and lists of fields with a separator between them. What
  was written can be told from the text.
 */
module Texts {
  // ----- numbers -----

  function Digit(d: nat): (c: char)
    requires d < 10
    ensures '0' <= c <= '9' && c as int - '0' as int == d
  {
    (d + '0' as int) as char
  }

  predicate IsDigits(s: string) { forall i | 0 <= i < |s| :: '0' <= s[i] <= '9' }

  /** A number in decimal, without leading zeros. */
  function Dec(n: nat): (s: string)
    ensures IsDigits(s) && s != []
  {
    if n < 10 then [Digit(n)] else Dec(n / 10) + [Digit(n % 10)]
  }

  /** The number a string of digits stands for. */
  function Value(s: string): nat
    requires IsDigits(s)
  {
    if s == [] then 0
    else Value(s[..|s| - 1]) * 10 + (s[|s| - 1] as int - '0' as int)
  }

  lemma {:induction false} DecValue(n: nat)
    ensures Value(Dec(n)) == n
  {
    if n >= 10 {
      DecValue(n / 10);
      assert Dec(n)[..|Dec(n)| - 1] == Dec(n / 10);
    } else {
      assert Dec(n)[..0] == [];
    }
  }

  /** Different numbers read differently. */
  lemma DecInjective(a: nat, b: nat)
    requires Dec(a) == Dec(b)
    ensures a == b
  {
    DecValue(a);
    DecValue(b);
  }

  // ----- fields -----

  /** Fields with a separator between them. */
  function Join(fields: seq<string>, sep: char): string
    requires fields != []
  {
    if |fields| == 1 then fields[0] else fields[0] + [sep] + Join(fields[1..], sep)
  }

  predicate Without(fields: seq<string>, sep: char) { forall f | f in fields :: sep !in f }

  /** Where the first field ends, two texts agree. */
  lemma FirstField(a: string, rest: string, b: string, rest': string, sep: char)
    requires a + [sep] + rest == b + [sep] + rest' && sep !in a && sep !in b
    ensures a == b && rest == rest'
  {
    var t := a + [sep] + rest;
    assert t[|a|] == sep && t[|b|] == sep;
    assert forall k | 0 <= k < |a| :: t[k] == a[k];
    assert forall k | 0 <= k < |b| :: t[k] == b[k];
    assert |a| == |b|;
    assert t[..|a|] == a && t[..|b|] == b;
    assert t[|a| + 1..] == rest && t[|b| + 1..] == rest';
  }

  lemma JoinHasSep(fields: seq<string>, sep: char)
    requires fields != [] && Without(fields, sep)
    ensures sep in Join(fields, sep) <==> |fields| > 1
  {
    assert fields[0] in fields;
    if |fields| > 1 {
      assert Join(fields, sep)[|fields[0]|] == sep;
    }
  }

  /** The fields can be told from the text when the separator occurs in none. */
  lemma {:induction false} JoinInjective(a: seq<string>, b: seq<string>, sep: char)
    requires a != [] && b != [] && Without(a, sep) && Without(b, sep) && Join(a, sep) == Join(b, sep)
    ensures a == b
  {
    JoinHasSep(a, sep);
    JoinHasSep(b, sep);
    if |a| == 1 {
      assert a == [a[0]] && b == [b[0]];
    } else {
      FirstField(a[0], Join(a[1..], sep), b[0], Join(b[1..], sep), sep);
      assert forall f | f in a[1..] :: f in a;
      assert forall f | f in b[1..] :: f in b;
      JoinInjective(a[1..], b[1..], sep);
      assert a == [a[0]] + a[1..] && b == [b[0]] + b[1..];
    }
  }

  /** A character of the text is the separator or one of a field. */
  lemma {:induction false} JoinChars(fields: seq<string>, sep: char, c: char)
    requires fields != [] && c in Join(fields, sep) && c != sep
    ensures exists f :: f in fields && c in f
  {
    if |fields| > 1 && c !in fields[0] {
      JoinChars(fields[1..], sep, c);
    } else {
      assert fields[0] in fields;
    }
  }
}
