/** Reading a URL's query string back: the part after the first `?`, split
    into `&`-separated `key=value` fields. This is the reader side that the
    share links are checked against; the application itself never parses a
    URL. */
module Query {
  import opened Wrappers

  /** `s.split(sep)`: the maximal runs of `s` between separators, in order. */
  function Split(s: string, sep: char): (parts: seq<string>)
    ensures |parts| >= 1
    ensures forall k :: 0 <= k < |parts| ==> sep !in parts[k]
  {
    if s == [] then [[]]
    else
      var rest := Split(s[1..], sep);
      if s[0] == sep then [[]] + rest
      else [[s[0]] + rest[0]] + rest[1..]
  }

  /** A string without the separator is one field. */
  lemma {:induction false} SplitWithoutSeparator(s: string, sep: char)
    requires sep !in s
    ensures Split(s, sep) == [s]
  {
    if s != [] {
      SplitWithoutSeparator(s[1..], sep);
      assert [s[0]] + s[1..] == s;
    }
  }

  /** A separator after a separator-free `a` ends the first field. */
  lemma {:induction false} SplitAfter(a: string, sep: char, b: string)
    requires sep !in a
    ensures Split(a + [sep] + b, sep) == [a] + Split(b, sep)
  {
    if a == [] {
      assert a + [sep] + b == [sep] + b;
      assert ([sep] + b)[1..] == b;
    } else {
      SplitAfter(a[1..], sep, b);
      assert (a + [sep] + b)[1..] == a[1..] + [sep] + b;
      assert [a[0]] + a[1..] == a;
    }
  }

  /** The part of `url` after its first `?`; empty when there is none. */
  function QueryOf(url: string): string {
    var parts := Split(url, '?');
    if |parts| == 1 then [] else JoinFields(parts[1..], '?')
  }

  /** The inverse of `Split`: the fields with the separator between them. */
  function JoinFields(parts: seq<string>, sep: char): string
    requires |parts| >= 1
  {
    if |parts| == 1 then parts[0] else parts[0] + [sep] + JoinFields(parts[1..], sep)
  }

  lemma {:induction false} JoinSplit(s: string, sep: char)
    ensures JoinFields(Split(s, sep), sep) == s
  {
    if s != [] {
      JoinSplit(s[1..], sep);
      var rest := Split(s[1..], sep);
      if s[0] != sep && |rest| > 1 {
        assert ([s[0]] + rest[0]) + [sep] + JoinFields(rest[1..], sep) == [s[0]] + (rest[0] + [sep] + JoinFields(rest[1..], sep));
      }
      assert [s[0]] + s[1..] == s;
    }
  }

  /** For a base without `?`, the query is everything after the `?`. */
  lemma QueryAfterBase(base: string, q: string)
    requires '?' !in base
    ensures QueryOf(base + ['?'] + q) == q
  {
    SplitAfter(base, '?', q);
    JoinSplit(q, '?');
  }

  /** A query of one field: reading back gives that field. */
  lemma OneField(base: string, f: string)
    requires '?' !in base && '?' !in f && '&' !in f
    ensures Split(QueryOf(base + ['?'] + f), '&') == [f]
  {
    QueryAfterBase(base, f);
    SplitWithoutSeparator(f, '&');
  }

  /** A query of two `&`-separated fields: reading back gives both. */
  lemma TwoFields(base: string, f1: string, f2: string)
    requires '?' !in base && '?' !in f1 && '?' !in f2 && '&' !in f1 && '&' !in f2
    ensures Split(QueryOf(base + ['?'] + (f1 + ['&'] + f2)), '&') == [f1, f2]
  {
    var q := f1 + ['&'] + f2;
    assert '?' !in q;
    QueryAfterBase(base, q);
    SplitAfter(f1, '&', f2);
    SplitWithoutSeparator(f2, '&');
  }

  /** The value of the first `key=` field among `fields`. */
  function Lookup(fields: seq<string>, key: string): Option<string> {
    if fields == [] then None
    else if key + "=" <= fields[0] then Some(fields[0][|key| + 1..])
    else Lookup(fields[1..], key)
  }

  /** The raw (still percent-encoded) value of query parameter `key`. */
  function Param(url: string, key: string): Option<string> {
    Lookup(Split(QueryOf(url), '&'), key)
  }
}
