/** The string operations of Python that blog.py relies on: literal global
    replacement (`str.replace`), joining with a separator (`str.join`) and
    splitting on a separator (`str.split`). */
module Strings {

  /** `token` occurs somewhere in `s`. */
  predicate Occurs(token: string, s: string) {
    exists i :: 0 <= i <= |s| && token <= s[i..]
  }

  /** Python's `s.replace(token, value)` for a non-empty token: scanning from
      the left, every occurrence of `token` that does not overlap an earlier
      replaced one is replaced by `value`; the inserted `value` is never
      scanned again. */
  function ReplaceAll(s: string, token: string, value: string): (r: string)
    requires token != []
    ensures token == value ==> r == s
    decreases |s|
  {
    if s == [] then []
    else if token <= s then
      assert s == token + s[|token|..];
      value + ReplaceAll(s[|token|..], token, value)
    else
      assert s == [s[0]] + s[1..];
      [s[0]] + ReplaceAll(s[1..], token, value)
  }

  /** The loop that computes `ReplaceAll`. */
  method Replace(s: string, token: string, value: string) returns (r: string)
    requires token != []
    ensures r == ReplaceAll(s, token, value)
  {
    r := [];
    var i := 0;
    while i < |s|
      invariant 0 <= i <= |s|
      invariant r + ReplaceAll(s[i..], token, value) == ReplaceAll(s, token, value)
    {
      if token <= s[i..] {
        assert s[i..][|token|..] == s[i + |token|..];
        r := r + value;
        i := i + |token|;
      } else {
        assert s[i..][1..] == s[i + 1..];
        r := r + [s[i]];
        i := i + 1;
      }
    }
  }

  /** A string in which the token does not occur is returned unchanged. */
  lemma {:induction false} ReplaceAllWithoutToken(s: string, token: string, value: string)
    requires token != [] && !Occurs(token, s)
    ensures ReplaceAll(s, token, value) == s
    decreases |s|
  {
    if s != [] {
      assert s[0..] == s;
      forall i | 0 <= i <= |s[1..]|
        ensures !(token <= s[1..][i..])
      {
        assert s[1..][i..] == s[i + 1..];
      }
      ReplaceAllWithoutToken(s[1..], token, value);
    }
  }

  /** Text free of the token's first character is copied through unchanged,
      and the replacement continues right after it. */
  lemma {:induction false} ReplaceAllPlainPrefix(a: string, b: string, token: string, value: string)
    requires token != [] && token[0] !in a
    ensures ReplaceAll(a + b, token, value) == a + ReplaceAll(b, token, value)
    decreases |a|
  {
    if a == [] {
      assert a + b == b;
    } else {
      assert (a + b)[0] == a[0];
      assert (a + b)[1..] == a[1..] + b;
      ReplaceAllPlainPrefix(a[1..], b, token, value);
      assert a == [a[0]] + a[1..];
    }
  }

  /** An occurrence of the token after token-free text becomes the value, and
      the value itself is not scanned again. */
  lemma ReplaceAllSplice(a: string, b: string, token: string, value: string)
    requires token != [] && token[0] !in a
    ensures ReplaceAll(a + token + b, token, value) == a + value + ReplaceAll(b, token, value)
  {
    assert a + token + b == a + (token + b);
    ReplaceAllPlainPrefix(a, token + b, token, value);
    assert (token + b)[|token|..] == b;
  }

  /** The total length of the pieces. */
  function TotalLength(parts: seq<string>): nat
    decreases |parts|
  {
    if parts == [] then 0 else |parts[0]| + TotalLength(parts[1..])
  }

  /** Python's `sep.join(parts)`: the pieces in order, one separator between
      each two of them. */
  function Join(parts: seq<string>, sep: string): (r: string)
    ensures |parts| >= 1 ==> parts[0] <= r
    ensures |parts| >= 1 ==> |r| == TotalLength(parts) + (|parts| - 1) * |sep|
    decreases |parts|
  {
    if |parts| == 0 then ""
    else if |parts| == 1 then parts[0]
    else parts[0] + sep + Join(parts[1..], sep)
  }

  /** Python's `s.split(sep)` for a non-empty separator: the pieces between
      the non-overlapping occurrences of `sep`, found from the left; there is
      always at least one piece. */
  function Split(s: string, sep: string): (parts: seq<string>)
    requires sep != []
    ensures |parts| >= 1
    decreases |s|
  {
    if s == [] then [""]
    else if sep <= s then [""] + Split(s[|sep|..], sep)
    else
      var rest := Split(s[1..], sep);
      [[s[0]] + rest[0]] + rest[1..]
  }

  /** Prepending a character to the first piece prepends it to the join. */
  lemma JoinConsHead(c: char, parts: seq<string>, sep: string)
    requires |parts| >= 1
    ensures Join([[c] + parts[0]] + parts[1..], sep) == [c] + Join(parts, sep)
  {
    var p := [[c] + parts[0]] + parts[1..];
    if |parts| > 1 {
      assert p[1..] == parts[1..];
    }
  }

  /** The first piece of a split is a prefix of the text. */
  lemma {:induction false} SplitFirstIsPrefix(s: string, sep: string)
    requires sep != []
    ensures Split(s, sep)[0] <= s
    decreases |s|
  {
    if s != [] && !(sep <= s) {
      SplitFirstIsPrefix(s[1..], sep);
      assert s == [s[0]] + s[1..];
    }
  }

  /** Joining the pieces of a split with the separator gives back the text. */
  lemma {:induction false} JoinSplitRoundTrip(s: string, sep: string)
    requires sep != []
    ensures Join(Split(s, sep), sep) == s
    decreases |s|
  {
    if s == [] {
    } else if sep <= s {
      JoinSplitRoundTrip(s[|sep|..], sep);
      var rest := Split(s[|sep|..], sep);
      assert ([""] + rest)[1..] == rest;
      assert s == sep + s[|sep|..];
    } else {
      JoinSplitRoundTrip(s[1..], sep);
      JoinConsHead(s[0], Split(s[1..], sep), sep);
      assert s == [s[0]] + s[1..];
    }
  }

  /** No piece of a split contains the separator: every occurrence of it has
      been cut out. */
  lemma {:induction false} SplitPiecesFree(s: string, sep: string)
    requires sep != []
    ensures forall k :: 0 <= k < |Split(s, sep)| ==> !Occurs(sep, Split(s, sep)[k])
    decreases |s|
  {
    var parts := Split(s, sep);
    if s == [] {
      assert parts == [""];
    } else if sep <= s {
      SplitPiecesFree(s[|sep|..], sep);
      var rest := Split(s[|sep|..], sep);
      assert parts == [""] + rest;
      forall k | 0 <= k < |parts| ensures !Occurs(sep, parts[k]) {
        if k > 0 {
          assert parts[k] == rest[k - 1];
        }
      }
    } else {
      SplitPiecesFree(s[1..], sep);
      SplitFirstIsPrefix(s[1..], sep);
      var rest := Split(s[1..], sep);
      var first := [s[0]] + rest[0];
      assert parts == [first] + rest[1..];
      assert first <= s by {
        assert s == [s[0]] + s[1..];
      }
      forall i | 0 <= i <= |first| ensures !(sep <= first[i..]) {
        if i > 0 {
          assert first[i..] == rest[0][i - 1..];
        }
      }
      forall k | 0 <= k < |parts| ensures !Occurs(sep, parts[k]) {
        if k > 0 {
          assert parts[k] == rest[k];
        }
      }
    }
  }

  /** `s.replace(token, value) == value.join(s.split(token))`: replacement
      agrees with the split-and-join reading of it. */
  lemma {:induction false} ReplaceAllIsJoinSplit(s: string, token: string, value: string)
    requires token != []
    ensures ReplaceAll(s, token, value) == Join(Split(s, token), value)
    decreases |s|
  {
    if s == [] {
    } else if token <= s {
      ReplaceAllIsJoinSplit(s[|token|..], token, value);
      var rest := Split(s[|token|..], token);
      assert ([""] + rest)[1..] == rest;
    } else {
      ReplaceAllIsJoinSplit(s[1..], token, value);
      JoinConsHead(s[0], Split(s[1..], token), value);
    }
  }

  /** Splitting text that does not contain the one-character separator puts
      it in front of the first piece. */
  lemma {:induction false} SplitPlainPrefix(p: string, t: string, sep: string)
    requires |sep| == 1 && sep[0] !in p
    ensures Split(p + t, sep) == [p + Split(t, sep)[0]] + Split(t, sep)[1..]
    decreases |p|
  {
    if p == [] {
      assert p + t == t;
      assert p + Split(t, sep)[0] == Split(t, sep)[0];
    } else {
      assert (p + t)[0] == p[0];
      assert !(sep <= p + t);
      assert (p + t)[1..] == p[1..] + t;
      SplitPlainPrefix(p[1..], t, sep);
      assert [p[0]] + (p[1..] + Split(t, sep)[0]) == p + Split(t, sep)[0];
    }
  }

  /** Splitting on a one-character separator undoes joining with it, when no
      piece contains the separator. */
  lemma {:induction false} SplitJoin(parts: seq<string>, sep: string)
    requires |parts| >= 1 && |sep| == 1
    requires forall i :: 0 <= i < |parts| ==> sep[0] !in parts[i]
    ensures Split(Join(parts, sep), sep) == parts
    decreases |parts|
  {
    if |parts| == 1 {
      SplitPlainPrefix(parts[0], "", sep);
      assert parts[0] + "" == parts[0];
    } else {
      var rest := Join(parts[1..], sep);
      SplitJoin(parts[1..], sep);
      assert parts[0] + sep + rest == parts[0] + (sep + rest);
      SplitPlainPrefix(parts[0], sep + rest, sep);
      assert (sep + rest)[|sep|..] == rest;
      assert Split(sep + rest, sep) == [""] + parts[1..];
      assert parts[0] + "" == parts[0];
      assert [parts[0]] + parts[1..] == parts;
    }
  }
}
