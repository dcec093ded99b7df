/**
 Cutting variable values into entries. A value is split on every occurrence
 of a single separator character, the way Rust's `str::split` does with a
 `char` pattern: empty entries between adjacent separators and at either end
 are kept, and the empty value yields one empty entry.
 */
module Entries {

  /** The entries of `s`, separated by `sep`. */
  function Split(s: string, sep: char): (r: seq<string>)
    ensures |r| >= 1
    ensures forall i :: 0 <= i < |r| ==> sep !in r[i]
    decreases |s|
  {
    if |s| == 0 then [""]
    else
      var rest := Split(s[1..], sep);
      if s[0] == sep then [""] + rest
      else [[s[0]] + rest[0]] + rest[1..]
  }

  /** A value with `n` separators has `n + 1` entries. */
  lemma {:induction false} SplitCount(s: string, sep: char)
    ensures |Split(s, sep)| == multiset(s)[sep] + 1
    decreases |s|
  {
    if |s| > 0 {
      SplitCount(s[1..], sep);
      assert s == [s[0]] + s[1..];
    }
  }

  /** Glues entries back together with `sep` between neighbours. */
  function Join(parts: seq<string>, sep: char): string
    decreases |parts|
  {
    if |parts| == 0 then ""
    else if |parts| == 1 then parts[0]
    else parts[0] + [sep] + Join(parts[1..], sep)
  }

  /** Prefixing a character to the first entry prefixes it to the joined string. */
  lemma JoinConsFirst(c: char, parts: seq<string>, sep: char)
    requires |parts| >= 1
    ensures Join([[c] + parts[0]] + parts[1..], sep) == [c] + Join(parts, sep)
  {
    var q := [[c] + parts[0]] + parts[1..];
    assert q[1..] == parts[1..];
  }

  /** Joining the entries of a value gives the value back: no character is
      lost, and in particular no empty entry is dropped. */
  lemma {:induction false} JoinSplit(s: string, sep: char)
    ensures Join(Split(s, sep), sep) == s
    decreases |s|
  {
    if |s| > 0 {
      var rest := Split(s[1..], sep);
      JoinSplit(s[1..], sep);
      assert Join(rest, sep) == s[1..];
      if s[0] == sep {
        var parts := [""] + rest;
        assert Split(s, sep) == parts;
        assert parts[1..] == rest;
        assert Join(parts, sep) == "" + [sep] + Join(rest, sep);
        assert s == [sep] + s[1..];
      } else {
        assert Split(s, sep) == [[s[0]] + rest[0]] + rest[1..];
        JoinConsFirst(s[0], rest, sep);
        assert s == [s[0]] + s[1..];
      }
    }
  }

  /** Splitting a text that starts with a separator-free prefix `p`: the
      prefix is glued to the front of the first entry of the remainder. */
  lemma {:induction false} SplitPrefix(p: string, t: string, sep: char)
    requires sep !in p
    ensures Split(p + t, sep) == [p + Split(t, sep)[0]] + Split(t, sep)[1..]
    decreases |p|
  {
    if |p| > 0 {
      assert (p + t)[1..] == p[1..] + t;
      assert (p + t)[0] == p[0];
      SplitPrefix(p[1..], t, sep);
      assert [p[0]] + (p[1..] + Split(t, sep)[0]) == p + Split(t, sep)[0];
    } else {
      assert p + t == t;
      assert p + Split(t, sep)[0] == Split(t, sep)[0];
      assert Split(t, sep) == [Split(t, sep)[0]] + Split(t, sep)[1..];
    }
  }

  /** Splitting joined separator-free entries gives the entries back, so
      `Split` and `Join` are mutually inverse on their natural domains. */
  lemma {:induction false} SplitJoin(parts: seq<string>, sep: char)
    requires |parts| >= 1
    requires forall i :: 0 <= i < |parts| ==> sep !in parts[i]
    ensures Split(Join(parts, sep), sep) == parts
    decreases |parts|
  {
    if |parts| == 1 {
      SplitPrefix(parts[0], "", sep);
      assert parts[0] + "" == parts[0];
    } else {
      var tail := Join(parts[1..], sep);
      SplitJoin(parts[1..], sep);
      assert Split([sep] + tail, sep) == [""] + parts[1..] by {
        assert ([sep] + tail)[1..] == tail;
      }
      SplitPrefix(parts[0], [sep] + tail, sep);
      assert parts[0] + [sep] + tail == parts[0] + ([sep] + tail);
      assert parts[0] + "" == parts[0];
      assert parts == [parts[0]] + parts[1..];
    }
  }

  /** The entries of every value, concatenated in value order: the
      `flat_map` of `split` over the variable values. */
  function FlatSplit(values: seq<string>, sep: char): (r: seq<string>)
    ensures |r| >= |values|
    ensures forall i :: 0 <= i < |r| ==> sep !in r[i]
    decreases |values|
  {
    if |values| == 0 then []
    else Split(values[0], sep) + FlatSplit(values[1..], sep)
  }

  /** The entries of concatenated value lists are the concatenated entries:
      values are never interleaved or reordered. */
  lemma {:induction false} FlatSplitAppend(a: seq<string>, b: seq<string>, sep: char)
    ensures FlatSplit(a + b, sep) == FlatSplit(a, sep) + FlatSplit(b, sep)
    decreases |a|
  {
    if |a| == 0 {
      assert a + b == b;
    } else {
      assert (a + b)[1..] == a[1..] + b;
      FlatSplitAppend(a[1..], b, sep);
    }
  }

  /** The entries contributed by the value at position `k` sit, in their
      own left-to-right order, right after those of the earlier values. */
  lemma FlatSplitAt(values: seq<string>, k: int, sep: char)
    requires 0 <= k < |values|
    ensures FlatSplit(values, sep)
         == FlatSplit(values[..k], sep) + Split(values[k], sep) + FlatSplit(values[k + 1..], sep)
  {
    assert values == values[..k] + ([values[k]] + values[k + 1..]);
    FlatSplitAppend(values[..k], [values[k]] + values[k + 1..], sep);
    assert ([values[k]] + values[k + 1..])[1..] == values[k + 1..];
  }
}
