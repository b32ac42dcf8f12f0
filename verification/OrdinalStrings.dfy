/** Ordinal string comparison: code unit by code unit, shorter first. */
module OrdinalStrings {

  function Compare(a: string, b: string): int {
    if a == [] then (if b == [] then 0 else -1)
    else if b == [] then 1
    else if a[0] < b[0] then -1
    else if a[0] > b[0] then 1
    else Compare(a[1..], b[1..])
  }

  lemma {:induction false} CompareEqual(a: string, b: string)
    ensures Compare(a, b) == 0 <==> a == b
  {
    if a != [] && b != [] {
      CompareEqual(a[1..], b[1..]);
      assert a == [a[0]] + a[1..] && b == [b[0]] + b[1..];
    }
  }

  lemma {:induction false} CompareAntisymmetric(a: string, b: string)
    ensures Compare(a, b) == -Compare(b, a)
  {
    if a != [] && b != [] && a[0] == b[0] {
      CompareAntisymmetric(a[1..], b[1..]);
    }
  }

  lemma {:induction false} CompareTransitive(a: string, b: string, c: string)
    requires Compare(a, b) <= 0 && Compare(b, c) <= 0
    ensures Compare(a, c) <= 0
    ensures Compare(a, b) < 0 || Compare(b, c) < 0 ==> Compare(a, c) < 0
  {
    if a != [] && b != [] && c != [] && a[0] == b[0] == c[0] {
      CompareTransitive(a[1..], b[1..], c[1..]);
    }
  }

  /** a comes before b: it is a proper prefix of b, or has the smaller character where they first differ. */
  predicate ComesBefore(a: string, b: string) {
    a < b || exists k :: 0 <= k < |a| && k < |b| && a[..k] == b[..k] && a[k] < b[k]
  }

  /** That is what the sign of the comparison says. */
  lemma {:induction false} CompareIsOrdinal(a: string, b: string)
    ensures Compare(a, b) < 0 <==> ComesBefore(a, b)
    ensures Compare(a, b) > 0 <==> ComesBefore(b, a)
  {
    if a != [] && b != [] && a[0] == b[0] {
      CompareIsOrdinal(a[1..], b[1..]);
      BeforeTail(a, b);
      BeforeTail(b, a);
    } else if a != [] && b != [] {
      assert a[..0] == b[..0];
    }
  }

  lemma BeforeTail(a: string, b: string)
    requires a != [] && b != [] && a[0] == b[0]
    ensures ComesBefore(a, b) <==> ComesBefore(a[1..], b[1..])
  {
    var s, t := a[1..], b[1..];
    assert a == [a[0]] + s && b == [b[0]] + t;
    forall k | 0 <= k < |s| && k < |t| && s[..k] == t[..k] && s[k] < t[k] ensures ComesBefore(a, b) {
      assert a[..k + 1] == [a[0]] + s[..k] && b[..k + 1] == [b[0]] + t[..k];
      assert a[k + 1] < b[k + 1];
    }
    forall k | 0 <= k < |a| && k < |b| && a[..k] == b[..k] && a[k] < b[k] ensures ComesBefore(s, t) {
      assert k > 0;
      assert s[..k - 1] == a[..k][1..] && t[..k - 1] == b[..k][1..];
      assert s[k - 1] < t[k - 1];
    }
  }

  /** For example: shorter first, upper case before lower case, digits before letters. */
  lemma OrdinalExamples()
    ensures Compare("AB", "ABC") < 0 && Compare("ABZ", "ABa") < 0 && Compare("A9", "AA") < 0 && Compare("B", "AB") > 0
  {
    assert "AB" < "ABC";
    CompareIsOrdinal("AB", "ABC");
    assert "ABZ"[..2] == "ABa"[..2] && "ABZ"[2] < "ABa"[2];
    CompareIsOrdinal("ABZ", "ABa");
    assert "A9"[..1] == "AA"[..1] && "A9"[1] < "AA"[1];
    CompareIsOrdinal("A9", "AA");
    assert "AB"[..0] == "B"[..0] && "AB"[0] < "B"[0];
    CompareIsOrdinal("B", "AB");
  }
}
