/** The part of Go's `strings` package the rate limiter relies on: splitting a
    header value around a one-character separator. Header values are treated
    as sequences of characters; the separators used (',' and ':') are ASCII,
    so splitting on characters agrees with Go splitting on bytes. */
module Strings {

  /** `strings.Split(s, sep)` for a one-character separator: the fields of `s`
      between separators, in order. There is always at least one field (the
      empty string has one empty field), which is why the rate limiter may
      index the result at 0 unconditionally. */
  function Split(s: string, sep: char): (fields: seq<string>)
    ensures |fields| >= 1
    ensures forall i :: 0 <= i < |fields| ==> sep !in fields[i]
    decreases |s|
  {
    if |s| == 0 then [""]
    else
      var rest := Split(s[1..], sep);
      if s[0] == sep then [""] + rest
      else [[s[0]] + rest[0]] + rest[1..]
  }

  /** `strings.Join(fields, sep)` for a non-empty list of fields. It undoes
      `Split`: `Join(Split(s, sep), sep) == s`. */
  function Join(fields: seq<string>, sep: char): string
    requires |fields| >= 1
    decreases |fields|
  {
    if |fields| == 1 then fields[0] else fields[0] + [sep] + Join(fields[1..], sep)
  }

  /** `f` is the text of `s` before its first `sep`: a prefix of `s` free of
      `sep` that is either all of `s` or is followed by `sep`. */
  predicate IsLeadingField(f: string, s: string, sep: char) {
    && f <= s
    && sep !in f
    && (|f| == |s| || s[|f|] == sep)
  }

  /** Splitting loses nothing: joining the fields back with the separator gives the input. */
  lemma {:induction false} SplitJoin(s: string, sep: char)
    ensures Join(Split(s, sep), sep) == s
    decreases |s|
  {
    if |s| > 0 {
      var rest := Split(s[1..], sep);
      SplitJoin(s[1..], sep);
      var fields := Split(s, sep);
      if s[0] == sep {
        assert fields[1..] == rest;
        assert s == [sep] + s[1..];
      } else if |rest| == 1 {
        assert fields == [[s[0]] + rest[0]];
        assert s == [s[0]] + s[1..];
      } else {
        assert fields[0] == [s[0]] + rest[0];
        assert fields[1..] == rest[1..];
        assert Join(rest, sep) == rest[0] + [sep] + Join(rest[1..], sep);
        assert s == [s[0]] + s[1..];
      }
    }
  }

  /** The first field of a split is exactly the text before the first separator. */
  lemma {:induction false} SplitHeadIsLeadingField(s: string, sep: char)
    ensures IsLeadingField(Split(s, sep)[0], s, sep)
    decreases |s|
  {
    if |s| > 0 && s[0] != sep {
      SplitHeadIsLeadingField(s[1..], sep);
      var f := Split(s[1..], sep)[0];
      assert Split(s, sep)[0] == [s[0]] + f;
      assert s == [s[0]] + s[1..];
    }
  }

  /** A text without the separator is a single field. */
  lemma {:induction false} SplitWithoutSeparator(s: string, sep: char)
    requires sep !in s
    ensures Split(s, sep) == [s]
    decreases |s|
  {
    if |s| > 0 {
      SplitWithoutSeparator(s[1..], sep);
      assert s == [s[0]] + s[1..];
    }
  }

  /** The first field of a text is whatever precedes its first separator. */
  lemma {:induction false} SplitHeadBeforeSeparator(a: string, b: string, sep: char)
    requires sep !in a
    ensures Split(a + [sep] + b, sep)[0] == a
    decreases |a|
  {
    var s := a + [sep] + b;
    if |a| > 0 {
      assert s[1..] == a[1..] + [sep] + b;
      SplitHeadBeforeSeparator(a[1..], b, sep);
      assert a == [a[0]] + a[1..];
    }
  }
}
