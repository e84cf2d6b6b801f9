/**
 * The order `String::cmp` imposes: lexicographic comparison of the UTF-8
 * bytes, with a proper prefix first. It is ordinal, not locale-aware.
 */
module NameOrder {
  import opened Utf8

  /** `a <= b` in lexicographic byte order. */
  predicate BytesLe(a: seq<byte>, b: seq<byte>) {
    a == [] || (b != [] && (a[0] < b[0] || (a[0] == b[0] && BytesLe(a[1..], b[1..]))))
  }

  lemma {:induction false} BytesLeTotal(a: seq<byte>, b: seq<byte>)
    ensures BytesLe(a, b) || BytesLe(b, a)
  {
    if a != [] && b != [] && a[0] == b[0] {
      BytesLeTotal(a[1..], b[1..]);
    }
  }

  lemma {:induction false} BytesLeTrans(a: seq<byte>, b: seq<byte>, c: seq<byte>)
    requires BytesLe(a, b) && BytesLe(b, c)
    ensures BytesLe(a, c)
  {
    if a != [] && a[0] == b[0] && b[0] == c[0] {
      BytesLeTrans(a[1..], b[1..], c[1..]);
    }
  }

  lemma {:induction false} BytesLeAntisymmetric(a: seq<byte>, b: seq<byte>)
    requires BytesLe(a, b) && BytesLe(b, a)
    ensures a == b
  {
    if a != [] {
      BytesLeAntisymmetric(a[1..], b[1..]);
      assert a == [a[0]] + a[1..] && b == [b[0]] + b[1..];
    }
  }

  /** `a.cmp(&b) != Greater` for two names. */
  predicate NameLe(a: string, b: string) {
    BytesLe(Encode(a), Encode(b))
  }

  lemma NameLeTotal(a: string, b: string)
    ensures NameLe(a, b) || NameLe(b, a)
  {
    BytesLeTotal(Encode(a), Encode(b));
  }

  lemma NameLeTrans(a: string, b: string, c: string)
    requires NameLe(a, b) && NameLe(b, c)
    ensures NameLe(a, c)
  {
    BytesLeTrans(Encode(a), Encode(b), Encode(c));
  }

  /** Two names that compare equal both ways are the same name. */
  lemma NameLeAntisymmetric(a: string, b: string)
    requires NameLe(a, b) && NameLe(b, a)
    ensures a == b
  {
    BytesLeAntisymmetric(Encode(a), Encode(b));
    EncodeInjective(a, b);
  }

  /** The order is ordinal: a directory `docs/` sorts before a file `notes.txt`, and `Z` before `a`. */
  lemma OrdinalExamples()
    ensures NameLe("docs/", "notes.txt") && !NameLe("notes.txt", "docs/")
    ensures NameLe("Zebra", "apple") && !NameLe("apple", "Zebra")
  {
    assert Encode("docs/")[0] == 'd' as int;
    assert Encode("notes.txt")[0] == 'n' as int;
    assert Encode("Zebra")[0] == 'Z' as int;
    assert Encode("apple")[0] == 'a' as int;
  }
}
