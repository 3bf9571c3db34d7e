/** JavaScript's `String.prototype.split` with a one-character separator and no
    limit, and the array indexing `a[k]` that yields `undefined` past the end.
    A JavaScript string is a sequence of UTF-16 code units, while a Dafny `char` is
    a Unicode scalar value. The two agree on the strings modelled here: Node
    delivers header values as latin1 text, so every unit is below 256, and the
    separator is U+0020. */
module JsSplit {
  import opened Wrappers

  /** `s.split(sep)`: the maximal separator-free fields of `s`, in order.
      The empty string splits into one empty field. */
  function Split(s: string, sep: char): (fields: seq<string>)
    ensures |fields| == Occurrences(s, sep) + 1
    ensures forall k :: 0 <= k < |fields| ==> sep !in fields[k]
    decreases |s|
  {
    if |s| == 0 then [""]
    else if s[0] == sep then [""] + Split(s[1..], sep)
    else
      var rest := Split(s[1..], sep);
      [[s[0]] + rest[0]] + rest[1..]
  }

  /** Number of occurrences of `c` in `s`. */
  function Occurrences(s: string, c: char): nat
  {
    if |s| == 0 then 0
    else (if s[0] == c then 1 else 0) + Occurrences(s[1..], c)
  }

  /** `fields.join(sep)`, the inverse of `Split`. */
  function Join(fields: seq<string>, sep: char): string
    requires |fields| >= 1
    decreases |fields|
  {
    if |fields| == 1 then fields[0]
    else fields[0] + [sep] + Join(fields[1..], sep)
  }

  /** `a[k]` on a JavaScript array: `undefined` when `k` is out of range. */
  function At<T>(a: seq<T>, k: nat): Option<T>
  {
    if k < |a| then Some(a[k]) else None
  }

  /** The first index at or after `from` holding `c`, or `|s|` if there is none. */
  function IndexOf(s: string, c: char, from: nat): (i: nat)
    requires from <= |s|
    ensures from <= i <= |s|
    ensures i < |s| ==> s[i] == c
    ensures forall k :: from <= k < i ==> s[k] != c
    decreases |s| - from
  {
    if from == |s| then |s|
    else if s[from] == c then from
    else IndexOf(s, c, from + 1)
  }

  /** Reference reading of `s.split(' ')[1]`, by positions: the text after the
      first space up to the next space or the end; `None` when `s` has no space. */
  function SecondField(s: string): Option<string>
  {
    var i := IndexOf(s, ' ', 0);
    if i == |s| then None
    else Some(s[i + 1 .. IndexOf(s, ' ', i + 1)])
  }

  /** The first index of `c` is the only index that has `c` and no `c` before it. */
  lemma IndexOfUnique(s: string, c: char, from: nat, j: nat)
    requires from <= j <= |s|
    requires j < |s| ==> s[j] == c
    requires forall k :: from <= k < j ==> s[k] != c
    ensures IndexOf(s, c, from) == j
  {
  }

  /** The first field of `s` is the prefix before the first separator, and the
      remaining fields are those of the text after it. */
  lemma {:induction false} SplitFirst(s: string, sep: char)
    ensures Split(s, sep)[0] == s[..IndexOf(s, sep, 0)]
    ensures IndexOf(s, sep, 0) == |s| ==> |Split(s, sep)| == 1
    ensures IndexOf(s, sep, 0) < |s| ==>
              Split(s, sep)[1..] == Split(s[IndexOf(s, sep, 0) + 1..], sep)
    decreases |s|
  {
    if |s| == 0 {
    } else if s[0] == sep {
      IndexOfUnique(s, sep, 0, 0);
    } else {
      var t := s[1..];
      SplitFirst(t, sep);
      var i := IndexOf(t, sep, 0);
      IndexOfUnique(s, sep, 0, i + 1);
      assert s[..i + 1] == [s[0]] + t[..i];
      if i < |t| {
        assert s[i + 2..] == t[i + 1..];
      }
    }
  }

  /** Searching a suffix finds the same occurrence as searching from its start. */
  lemma IndexOfSuffix(s: string, c: char, from: nat)
    requires from <= |s|
    ensures IndexOf(s[from..], c, 0) + from == IndexOf(s, c, from)
  {
    var t := s[from..];
    var j := IndexOf(t, c, 0);
    forall k | from <= k < from + j
      ensures s[k] != c
    {
      assert s[k] == t[k - from];
    }
    IndexOfUnique(s, c, from, from + j);
  }

  /** When `s` has a separator, its second field runs from just after the first
      separator to the next one, or to the end. */
  lemma SplitSecond(s: string, sep: char, i: nat)
    requires i == IndexOf(s, sep, 0) < |s|
    ensures |Split(s, sep)| >= 2
    ensures Split(s, sep)[1] == s[i + 1 .. IndexOf(s, sep, i + 1)]
  {
    var t := s[i + 1..];
    SplitFirst(s, sep);
    var rest := Split(t, sep);
    assert Split(s, sep)[1..] == rest;
    assert Split(s, sep)[1] == rest[0];
    SplitFirst(t, sep);
    IndexOfSuffix(s, sep, i + 1);
  }

  /** `split(' ')[1]` is exactly the text between the first and the second space,
      or from the first space to the end, and is undefined without a space. */
  lemma SecondFieldOfSplit(s: string)
    ensures At(Split(s, ' '), 1) == SecondField(s)
  {
    var i := IndexOf(s, ' ', 0);
    if i < |s| {
      SplitSecond(s, ' ', i);
    } else {
      SplitFirst(s, ' ');
    }
  }

  /** Joining the fields of a split gives back the original string. */
  lemma {:induction false} JoinSplit(s: string, sep: char)
    ensures Join(Split(s, sep), sep) == s
    decreases |s|
  {
    if |s| == 0 {
    } else if s[0] == sep {
      JoinSplit(s[1..], sep);
      var rest := Split(s[1..], sep);
      assert Split(s, sep) == [""] + rest;
      assert ([""] + rest)[1..] == rest;
    } else {
      JoinSplit(s[1..], sep);
      var rest := Split(s[1..], sep);
      var fs := [[s[0]] + rest[0]] + rest[1..];
      assert Split(s, sep) == fs;
      if |rest| == 1 {
      } else {
        assert fs[1..] == rest[1..];
        assert Join(rest, sep) == rest[0] + [sep] + Join(rest[1..], sep);
        assert s == [s[0]] + s[1..];
      }
    }
  }

  /** A string without the separator is a single field. */
  lemma {:induction false} SplitNoSeparator(w: string, sep: char)
    requires sep !in w
    ensures Split(w, sep) == [w]
    decreases |w|
  {
    if |w| > 0 {
      SplitNoSeparator(w[1..], sep);
      assert w == [w[0]] + w[1..];
    }
  }

  /** A separator-free prefix followed by the separator is the first field. */
  lemma {:induction false} SplitAfterField(w: string, sep: char, rest: string)
    requires sep !in w
    ensures Split(w + [sep] + rest, sep) == [w] + Split(rest, sep)
    decreases |w|
  {
    var s := w + [sep] + rest;
    if |w| == 0 {
      assert s == [sep] + rest;
      assert s[1..] == rest;
    } else {
      assert s[1..] == w[1..] + [sep] + rest;
      SplitAfterField(w[1..], sep, rest);
      assert [s[0]] + w[1..] == w;
    }
  }

  /** Splitting a join of separator-free fields gives back the fields. */
  lemma {:induction false} SplitJoin(fields: seq<string>, sep: char)
    requires |fields| >= 1
    requires forall k :: 0 <= k < |fields| ==> sep !in fields[k]
    ensures Split(Join(fields, sep), sep) == fields
    decreases |fields|
  {
    if |fields| == 1 {
      SplitNoSeparator(fields[0], sep);
    } else {
      SplitJoin(fields[1..], sep);
      SplitAfterField(fields[0], sep, Join(fields[1..], sep));
      assert fields == [fields[0]] + fields[1..];
    }
  }
}
