/**
 * The handful of Python `str` operations the warehouse code relies on:
 * `sub in s`, `s.split(sep)`, `s.strip()` and `s.lower()`, over strings as
 * sequences of characters.
 */
module Strings {

  datatype Option<+T> = None | Some(value: T)

  /** `t in s` for strings: `t` occurs as a contiguous substring of `s`. */
  predicate Contains(s: string, t: string)
  {
    exists i | 0 <= i <= |s| :: OccursAt(s, t, i)
  }

  /** `sep` occurs in `s` at position `i`. */
  predicate OccursAt(s: string, sep: string, i: int)
  {
    0 <= i && i + |sep| <= |s| && s[i..i + |sep|] == sep
  }

  /** Leftmost position at which `sep` occurs in `s` (the scan `str.split` does). */
  function Find(s: string, sep: string): (r: Option<nat>)
    requires sep != []
    ensures r.Some? ==> OccursAt(s, sep, r.value)
  {
    FindFrom(s, sep, 0)
  }

  /** `Find` gives the leftmost occurrence, and none exactly when `sep`
      does not occur. */
  lemma {:induction false} FindSpec(s: string, sep: string)
    requires sep != []
    ensures Find(s, sep).Some? ==> forall j :: 0 <= j < Find(s, sep).value ==> !OccursAt(s, sep, j)
    ensures Find(s, sep).None? <==> !Contains(s, sep)
  {
    var r := FindFrom(s, sep, 0);
    if r.Some? {
      assert OccursAt(s, sep, r.value);
    }
  }

  /** Leftmost position at or after `k` at which `sep` occurs in `s`. */
  function FindFrom(s: string, sep: string, k: nat): (r: Option<nat>)
    requires sep != []
    ensures r.Some? ==> k <= r.value && OccursAt(s, sep, r.value)
    ensures r.Some? ==> forall j :: k <= j < r.value ==> !OccursAt(s, sep, j)
    ensures r.None? ==> forall j :: k <= j ==> !OccursAt(s, sep, j)
    decreases |s| - k
  {
    if |s| < k + |sep| then None
    else if OccursAt(s, sep, k) then Some(k)
    else FindFrom(s, sep, k + 1)
  }

  /** Python's `s.split(sep)` for a non-empty separator: the pieces between
      the non-overlapping occurrences of `sep`, scanning left to right. */
  function Split(s: string, sep: string): (r: seq<string>)
    requires sep != []
    ensures |r| >= 1
    decreases |s|
  {
    match Find(s, sep)
      case None => [s]
      case Some(i) => [s[..i]] + Split(s[i + |sep|..], sep)
  }

  /** A split has a single piece exactly when the separator does not occur. */
  lemma {:induction false} SplitCount(s: string, sep: string)
    requires sep != []
    ensures |Split(s, sep)| == 1 <==> !Contains(s, sep)
  {
    FindSpec(s, sep);
    if Find(s, sep).Some? {
      var i := Find(s, sep).value;
      SplitAtFirst(s, sep, i);
    }
  }

  /** Inverse of `Split`: the pieces glued back together with `sep`. */
  function Join(pieces: seq<string>, sep: string): string
  {
    if |pieces| <= 1 then (if pieces == [] then [] else pieces[0])
    else pieces[0] + sep + Join(pieces[1..], sep)
  }

  /** Splitting loses nothing: joining the pieces gives the string back. */
  lemma {:induction false} SplitJoin(s: string, sep: string)
    requires sep != []
    ensures Join(Split(s, sep), sep) == s
    decreases |s|
  {
    if Find(s, sep).Some? {
      var i := Find(s, sep).value;
      var rest := s[i + |sep|..];
      SplitAtFirst(s, sep, i);
      SplitJoin(rest, sep);
      JoinCons(s[..i], Split(rest, sep), sep);
      assert OccursAt(s, sep, i);
      SliceThree(s, i, i + |sep|);
    }
  }

  /** Where `sep` first occurs at `i`, the split is the text before it
      followed by the split of the text after it. */
  lemma {:induction false} SplitAtFirst(s: string, sep: string, i: nat)
    requires sep != [] && Find(s, sep) == Some(i)
    ensures i + |sep| <= |s|
    ensures Split(s, sep) == [s[..i]] + Split(s[i + |sep|..], sep)
  {
  }

  /** A string is its three slices at `i` and `j`, in order. */
  lemma {:induction false} SliceThree(s: string, i: nat, j: nat)
    requires i <= j <= |s|
    ensures s == s[..i] + s[i..j] + s[j..]
  {
  }

  lemma {:induction false} JoinCons(p: string, tail: seq<string>, sep: string)
    requires |tail| >= 1
    ensures Join([p] + tail, sep) == p + sep + Join(tail, sep)
  {
    assert ([p] + tail)[1..] == tail;
  }

  /** No piece of a split contains the separator. */
  lemma {:induction false} SplitPiecesFree(s: string, sep: string)
    requires sep != []
    ensures forall k :: 0 <= k < |Split(s, sep)| ==> !Contains(Split(s, sep)[k], sep)
    decreases |s|
  {
    if Find(s, sep).Some? {
      var i := Find(s, sep).value;
      var rest := s[i + |sep|..];
      SplitAtFirst(s, sep, i);
      SplitPiecesFree(rest, sep);
      NoOccurrenceBefore(s, sep, i);
      var pieces := Split(s, sep);
      forall k | 1 <= k < |pieces|
        ensures !Contains(pieces[k], sep)
      {
        assert pieces[k] == Split(rest, sep)[k - 1];
      }
    }
  }

  /** Every character of a piece of a split is a character of the string. */
  lemma {:induction false} SplitPieceChars(s: string, sep: string, k: nat, c: char)
    requires sep != [] && k < |Split(s, sep)| && c in Split(s, sep)[k]
    ensures c in s
    decreases |s|
  {
    if Find(s, sep).None? {
      assert Split(s, sep) == [s];
    } else {
      var i := Find(s, sep).value;
      SplitPiece(s, sep, i, k);
      var j: nat;
      if k == 0 {
        j :| j < i && s[..i][j] == c;
      } else {
        var rest := s[i + |sep|..];
        SplitPieceChars(rest, sep, k - 1, c);
        var m :| 0 <= m < |rest| && rest[m] == c;
        j := i + |sep| + m;
      }
      assert s[j] == c;
    }
  }

  /** Where `sep` first occurs at `i`, piece 0 is the text before it and
      every later piece is a piece of the text after it. */
  lemma {:induction false} SplitPiece(s: string, sep: string, i: nat, k: nat)
    requires sep != [] && Find(s, sep) == Some(i) && k < |Split(s, sep)|
    ensures i + |sep| <= |s|
    ensures k == 0 ==> Split(s, sep)[k] == s[..i]
    ensures k > 0 ==>
      k - 1 < |Split(s[i + |sep|..], sep)| && Split(s, sep)[k] == Split(s[i + |sep|..], sep)[k - 1]
  {
    SplitAtFirst(s, sep, i);
  }

  /** When `sep` does not occur before `i`, the prefix `s[..i]` does not contain it. */
  lemma {:induction false} NoOccurrenceBefore(s: string, sep: string, i: nat)
    requires sep != [] && i <= |s|
    requires forall j :: 0 <= j < i ==> !OccursAt(s, sep, j)
    ensures !Contains(s[..i], sep)
  {
    forall j | 0 <= j
      ensures !OccursAt(s[..i], sep, j)
    {
      if j + |sep| <= i {
        assert s[..i][j..j + |sep|] == s[j..j + |sep|];
        assert j < i && !OccursAt(s, sep, j);
      }
    }
  }

  /** When `sep` starts with a character absent from `a`, its leftmost
      occurrence in `a + sep + b` is right after `a`. */
  lemma {:induction false} FindAfterPrefix(a: string, sep: string, b: string)
    requires sep != [] && sep[0] !in a
    ensures Find(a + sep + b, sep) == Some(|a|)
  {
    var s := a + sep + b;
    assert OccursAt(s, sep, |a|) by { assert s[|a|..|a| + |sep|] == sep; }
    forall j | 0 <= j < |a|
      ensures !OccursAt(s, sep, j)
    {
      assert s[j] == a[j] && a[j] in a;
      if j + |sep| <= |s| { assert s[j..j + |sep|][0] == s[j]; }
    }
  }

  /** Splitting `a + sep + b`, where `sep` starts with a character absent
      from `a`, yields `a` followed by the pieces of `b`. */
  lemma {:induction false} SplitAfterPrefix(a: string, sep: string, b: string)
    requires sep != [] && sep[0] !in a
    ensures Split(a + sep + b, sep) == [a] + Split(b, sep)
  {
    var s := a + sep + b;
    FindAfterPrefix(a, sep, b);
    assert s[..|a|] == a;
    assert s[|a| + |sep|..] == b;
  }

  /** A string without the separator splits into itself alone. */
  lemma {:induction false} SplitWithout(s: string, sep: string)
    requires sep != [] && !Contains(s, sep)
    ensures Split(s, sep) == [s]
  {
    FindSpec(s, sep);
  }

  /** A string none of whose characters starts the separator does not contain it. */
  lemma {:induction false} NotContainsFirstChar(s: string, sep: string)
    requires sep != [] && sep[0] !in s
    ensures !Contains(s, sep)
  {
    forall i | 0 <= i && i + |sep| <= |s|
      ensures !OccursAt(s, sep, i)
    {
      assert s[i] in s;
      assert s[i..i + |sep|][0] == s[i];
    }
  }

  /** Every string occurs in itself with anything in front of it. */
  lemma {:induction false} ContainsSuffix(a: string, t: string)
    ensures Contains(a + t, t)
  {
    assert OccursAt(a + t, t, |a|) by { assert (a + t)[|a|..|a| + |t|] == t; }
  }

  /** A prefix none of whose characters starts `sep` cannot hold an
      occurrence of `sep`, not even one running on into what follows. */
  lemma {:induction false} ContainsPastPrefix(a: string, b: string, sep: string)
    requires sep != [] && sep[0] !in a
    ensures Contains(a + b, sep) <==> Contains(b, sep)
  {
    var s := a + b;
    forall i | 0 <= i <= |b|
      ensures OccursAt(s, sep, |a| + i) <==> OccursAt(b, sep, i)
    {
      if i + |sep| <= |b| { assert s[|a| + i..|a| + i + |sep|] == b[i..i + |sep|]; }
    }
    forall i | 0 <= i < |a|
      ensures !OccursAt(s, sep, i)
    {
      assert s[i] == a[i] && a[i] in a;
      if i + |sep| <= |s| { assert s[i..i + |sep|][0] == s[i]; }
    }
    if Contains(s, sep) {
      var i :| 0 <= i <= |s| && OccursAt(s, sep, i);
      assert OccursAt(b, sep, i - |a|);
    }
    if Contains(b, sep) {
      var i :| 0 <= i <= |b| && OccursAt(b, sep, i);
      assert OccursAt(s, sep, |a| + i);
    }
  }

  /** A character that does not occur as a one-character substring is not
      in the string at all. */
  lemma {:induction false} CharNotContained(s: string, c: char)
    requires !Contains(s, [c])
    ensures c !in s
  {
    forall i | 0 <= i < |s|
      ensures s[i] != c
    {
      assert s[i..i + 1] == [s[i]];
      assert OccursAt(s, [s[i]], i);
    }
  }

  /** The characters Python's argument-less `str.strip()` removes (the ASCII ones). */
  predicate IsSpace(c: char)
  {
    // space, \t \n \v \f \r, and the separators U+001C to U+001F
    c == ' ' || '\t' <= c <= '\r' || '\U{1C}' <= c <= '\U{1F}'
  }

  function TrimLeft(s: string): (r: string)
    ensures |r| <= |s| && r == s[|s| - |r|..]
    ensures r != [] ==> !IsSpace(r[0])
    ensures forall k :: 0 <= k < |s| - |r| ==> IsSpace(s[k])
  {
    if s != [] && IsSpace(s[0]) then TrimLeft(s[1..]) else s
  }

  function TrimRight(s: string): (r: string)
    ensures |r| <= |s| && r == s[..|r|]
    ensures r != [] ==> !IsSpace(r[|r| - 1])
    ensures forall k :: |r| <= k < |s| ==> IsSpace(s[k])
  {
    if s != [] && IsSpace(s[|s| - 1]) then TrimRight(s[..|s| - 1]) else s
  }

  /** Python's `s.strip()`: `s` without its leading and trailing white space. */
  function Strip(s: string): (r: string)
    ensures |r| <= |s|
    ensures r != [] ==> !IsSpace(r[0]) && !IsSpace(r[|r| - 1])
    ensures (forall k :: 0 <= k < |s| ==> !IsSpace(s[k])) ==> r == s
    ensures forall c :: c in r ==> c in s
  {
    TrimRight(TrimLeft(s))
  }

  /** Stripping a string that has no surrounding white space, followed by
      trailing blanks, gives the string back. */
  lemma {:induction false} StripTrailingBlank(name: string, tail: string)
    requires name != [] ==> !IsSpace(name[0]) && !IsSpace(name[|name| - 1])
    requires forall k :: 0 <= k < |tail| ==> IsSpace(tail[k])
    ensures Strip(name + tail) == name
  {
    var s := name + tail;
    if name == [] {
      TrimLeftAllSpace(s);
    } else {
      assert TrimLeft(s) == s;
      TrimRightSpaces(name, tail);
    }
  }

  lemma {:induction false} TrimLeftAllSpace(s: string)
    requires forall k :: 0 <= k < |s| ==> IsSpace(s[k])
    ensures TrimLeft(s) == []
  {
  }

  lemma {:induction false} TrimRightSpaces(name: string, tail: string)
    requires name != [] ==> !IsSpace(name[|name| - 1])
    requires forall k :: 0 <= k < |tail| ==> IsSpace(tail[k])
    ensures TrimRight(name + tail) == name
    decreases |tail|
  {
    if tail == [] {
      assert name + tail == name;
    } else {
      var s := name + tail;
      assert s[..|s| - 1] == name + tail[..|tail| - 1];
      TrimRightSpaces(name, tail[..|tail| - 1]);
    }
  }

  /** Python's `str.lower()` on one character (ASCII letters only). */
  function LowerChar(c: char): (r: char)
    ensures 'A' <= c <= 'Z' ==> r != c && 'a' <= r <= 'z'
    ensures !('A' <= c <= 'Z') ==> r == c
  {
    if 'A' <= c <= 'Z' then (c as int - 'A' as int + 'a' as int) as char else c
  }

  /** Python's `s.lower()`. */
  function Lower(s: string): (r: string)
    ensures |r| == |s|
    ensures forall k :: 0 <= k < |s| ==> r[k] == LowerChar(s[k])
  {
    seq(|s|, k requires 0 <= k < |s| => LowerChar(s[k]))
  }

  /** Text without ASCII capitals survives lower-casing where it occurs. */
  lemma {:induction false} LowerKeeps(s: string, w: string, i: int)
    requires OccursAt(s, w, i) && forall k :: 0 <= k < |w| ==> !('A' <= w[k] <= 'Z')
    ensures OccursAt(Lower(s), w, i)
  {
    forall k | 0 <= k < |w|
      ensures Lower(s)[i + k] == w[k]
    {
      assert s[i + k] == s[i..i + |w|][k];
    }
  }

  lemma {:induction false} LowerAppend(a: string, b: string)
    ensures Lower(a + b) == Lower(a) + Lower(b)
  {
  }
}
