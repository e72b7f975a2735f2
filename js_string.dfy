/**
  The two JavaScript string built-ins the gate relies on, over strings of
  Unicode scalar values (not UTF-16 code units): `String.prototype.split` with
  a one-character separator, and `String.prototype.charCodeAt` as it behaves
  when its result is an operand of `^` (the `NaN` returned past the end of the
  string converts to 0).
 */
module JsString {

  /** `s.split(sep)`: the maximal runs between separators, empty runs included.
      Splitting the empty string gives one empty field, as in JavaScript. */
  function Split(s: string, sep: char): (fields: seq<string>)
    ensures |fields| >= 1
    ensures forall i :: 0 <= i < |fields| ==> sep !in fields[i]
    decreases |s|
  {
    if s == [] then [[]]
    else
      var rest := Split(s[1..], sep);
      if s[0] == sep then [[]] + rest
      else [[s[0]] + rest[0]] + rest[1..]
  }

  /** `fields.join(sep)`, the inverse of Split. */
  function Join(fields: seq<string>, sep: char): string
    requires |fields| >= 1
    decreases |fields|
  {
    if |fields| == 1 then fields[0]
    else fields[0] + [sep] + Join(fields[1..], sep)
  }

  /** The number of occurrences of `c` in `s`. */
  function Occurrences(s: string, c: char): nat
    decreases |s|
  {
    if s == [] then 0
    else (if s[0] == c then 1 else 0) + Occurrences(s[1..], c)
  }

  /** Joining the fields of a split gives back the string: nothing is lost. */
  lemma {:induction false} JoinSplit(s: string, sep: char)
    ensures Join(Split(s, sep), sep) == s
    decreases |s|
  {
    if s != [] {
      var rest := Split(s[1..], sep);
      JoinSplit(s[1..], sep);
      if s[0] == sep {
        assert Join(Split(s, sep), sep) == [] + [sep] + Join(rest, sep);
      } else if |rest| == 1 {
        assert Join(Split(s, sep), sep) == [s[0]] + rest[0];
      } else {
        var fields := Split(s, sep);
        assert fields[1..] == rest[1..];
        assert Join(fields, sep) == [s[0]] + (rest[0] + [sep] + Join(rest[1..], sep));
      }
      assert [s[0]] + s[1..] == s;
    }
  }

  /** A string without the separator is split into itself alone. */
  lemma {:induction false} SplitOneField(f: string, sep: char)
    requires sep !in f
    ensures Split(f, sep) == [f]
    decreases |f|
  {
    if f != [] {
      assert sep !in f[1..];
      SplitOneField(f[1..], sep);
      assert [f[0]] + f[1..] == f;
    }
  }

  /** A leading field that ends at a separator is split off on its own. */
  lemma {:induction false} SplitAfterField(f: string, rest: string, sep: char)
    requires sep !in f
    ensures Split(f + [sep] + rest, sep) == [f] + Split(rest, sep)
    decreases |f|
  {
    var s := f + [sep] + rest;
    if f == [] {
      assert s[0] == sep && s[1..] == rest;
    } else {
      assert s[0] == f[0] && s[1..] == f[1..] + [sep] + rest;
      assert sep !in f[1..];
      SplitAfterField(f[1..], rest, sep);
      assert [f[0]] + f[1..] == f;
    }
  }

  /** Splitting a join of separator-free fields gives back those fields. */
  lemma {:induction false} SplitJoin(fields: seq<string>, sep: char)
    requires |fields| >= 1
    requires forall i :: 0 <= i < |fields| ==> sep !in fields[i]
    ensures Split(Join(fields, sep), sep) == fields
    decreases |fields|
  {
    if |fields| == 1 {
      SplitOneField(fields[0], sep);
    } else {
      SplitJoin(fields[1..], sep);
      SplitAfterField(fields[0], Join(fields[1..], sep), sep);
      assert [fields[0]] + fields[1..] == fields;
    }
  }

  /** A split has one field more than the string has separators. */
  lemma {:induction false} SplitCount(s: string, sep: char)
    ensures |Split(s, sep)| == Occurrences(s, sep) + 1
    decreases |s|
  {
    if s != [] {
      SplitCount(s[1..], sep);
    }
  }

  /** `s.charCodeAt(i)` converted to an integer by `^`: the code of the
      scalar value at `i`, and 0 (from `NaN`) at or beyond the end. */
  function CodeAt(s: string, i: nat): (code: nat)
    ensures code < 0x11_0000
  {
    if i < |s| then s[i] as int else 0
  }

}
