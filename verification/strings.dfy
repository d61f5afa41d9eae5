/** The JavaScript string operations the metadata mapper relies on: `indexOf`, `split` with a
    string separator, `Array.prototype.join`, and a global literal `replace`. */
module Strings {

  /** `sub` occurs in `s` starting at index `i`. */
  predicate OccursAt(s: string, sub: string, i: int) {
    0 <= i && i + |sub| <= |s| && s[i..i + |sub|] == sub
  }

  /** `s.indexOf(sub)`: the first index at which `sub` occurs, or -1 when it occurs nowhere. */
  function IndexOf(s: string, sub: string): (r: int)
    ensures -1 <= r
    ensures r >= 0 ==> OccursAt(s, sub, r)
    ensures r >= 0 ==> forall i :: 0 <= i < r ==> !OccursAt(s, sub, i)
    ensures r == -1 <==> forall i :: !OccursAt(s, sub, i)
    decreases |s|
  {
    if |s| < |sub| then -1
    else if sub <= s then
      assert OccursAt(s, sub, 0);
      0
    else
      var k := IndexOf(s[1..], sub);
      assert !OccursAt(s, sub, 0);
      if k < 0 then
        assert forall i :: !OccursAt(s, sub, i) by {
          forall i ensures !OccursAt(s, sub, i) {
            if i > 0 {
              ShiftOccurrence(s, sub, i - 1);
            }
          }
        }
        -1
      else
        assert OccursAt(s, sub, k + 1) by {
          ShiftOccurrence(s, sub, k);
        }
        assert forall i :: 0 <= i < k + 1 ==> !OccursAt(s, sub, i) by {
          forall i | 0 <= i < k + 1 ensures !OccursAt(s, sub, i) {
            if i > 0 {
              ShiftOccurrence(s, sub, i - 1);
            }
          }
        }
        k + 1
  }

  /** An occurrence past the first character of `s` is an occurrence in `s[1..]`, one index earlier. */
  lemma ShiftOccurrence(s: string, sub: string, i: int)
    requires |s| > 0 && 0 <= i
    ensures OccursAt(s, sub, i + 1) <==> OccursAt(s[1..], sub, i)
  {
    if i + 1 + |sub| <= |s| {
      assert s[1..][i..i + |sub|] == s[i + 1..i + 1 + |sub|];
    }
  }

  /** The source's `s.indexOf(sub) !== -1` (equivalently, not `<= -1`). */
  predicate Contains(s: string, sub: string) {
    IndexOf(s, sub) != -1
  }

  /** A one-character needle is contained exactly when that character is an element of `s`. */
  lemma ContainsChar(s: string, c: char)
    ensures Contains(s, [c]) <==> c in s
  {
    if c in s {
      var i :| 0 <= i < |s| && s[i] == c;
      assert s[i..i + 1] == [c];
      assert OccursAt(s, [c], i);
    }
    if Contains(s, [c]) {
      var i := IndexOf(s, [c]);
      assert s[i..i + 1] == [c];
      assert s[i] in s;
    }
  }

  /** A needle that begins `s` is contained in `s` followed by anything. */
  lemma ContainsPrefix(s: string, sub: string, rest: string)
    requires sub <= s
    ensures Contains(s + rest, sub)
  {
    assert (s + rest)[0..|sub|] == sub;
    assert OccursAt(s + rest, sub, 0);
  }

  /** `s.split(sep)` for a non-empty separator: the pieces of `s` between the left-to-right,
      non-overlapping occurrences of `sep`. There is always at least one piece. */
  function Split(s: string, sep: string): (parts: seq<string>)
    requires |sep| > 0
    ensures |parts| >= 1
    decreases |s|
  {
    if s == [] then [[]]
    else if sep <= s then [[]] + Split(s[|sep|..], sep)
    else
      var rest := Split(s[1..], sep);
      [[s[0]] + rest[0]] + rest[1..]
  }

  /** `parts.join(sep)`. */
  function Join(parts: seq<string>, sep: string): string
  {
    if |parts| == 0 then []
    else if |parts| == 1 then parts[0]
    else parts[0] + sep + Join(parts[1..], sep)
  }

  /** Appending a part to a non-empty list appends the separator and the part to the join. */
  lemma {:induction false} JoinSnoc(parts: seq<string>, x: string, sep: string)
    requires |parts| >= 1
    ensures Join(parts + [x], sep) == Join(parts, sep) + sep + x
    decreases |parts|
  {
    var ps := parts + [x];
    if |parts| == 1 {
      assert ps[1..] == [x];
    } else {
      assert ps[1..] == parts[1..] + [x];
      JoinSnoc(parts[1..], x, sep);
    }
  }

  /** The join of the first `n` parts is a prefix of the join of all of them. */
  lemma {:induction false} JoinPrefix(parts: seq<string>, n: nat, sep: string)
    requires 1 <= n <= |parts|
    ensures Join(parts[..n], sep) <= Join(parts, sep)
    decreases |parts| - n
  {
    if n == |parts| {
      assert parts[..n] == parts;
    } else {
      JoinPrefix(parts, n + 1, sep);
      assert parts[..n + 1] == parts[..n] + [parts[n]];
      JoinSnoc(parts[..n], parts[n], sep);
    }
  }

  /** Extending the first part of a list extends the joined string by the same text in front. */
  lemma JoinExtendHead(x: string, parts: seq<string>, sep: string)
    requires |parts| >= 1
    ensures Join([x + parts[0]] + parts[1..], sep) == x + Join(parts, sep)
  {
    var ps := [x + parts[0]] + parts[1..];
    if |parts| > 1 {
      assert ps[1..] == parts[1..];
    }
  }

  /** The joined string begins with the first part. */
  lemma JoinStartsWithHead(parts: seq<string>, sep: string)
    requires |parts| >= 1
    ensures parts[0] <= Join(parts, sep)
  {
  }

  /** `s.replace(new RegExp(find, 'g'), rep)` for a literal, non-empty `find`: every left-to-right,
      non-overlapping occurrence of `find` becomes `rep`. The text between occurrences is kept, so
      the result is the split pieces joined back with `rep`. */
  function ReplaceAll(s: string, find: string, rep: string): (r: string)
    requires |find| > 0
    ensures r == Join(Split(s, find), rep)
    decreases |s|
  {
    if s == [] then []
    else if find <= s then
      var rest := ReplaceAll(s[|find|..], find, rep);
      assert ([[]] + Split(s[|find|..], find))[1..] == Split(s[|find|..], find);
      rep + rest
    else
      var rest := ReplaceAll(s[1..], find, rep);
      JoinExtendHead([s[0]], Split(s[1..], find), rep);
      [s[0]] + rest
  }

  /** Joining the pieces of a split with the separator gives back the original string, so
      splitting loses no text. */
  lemma {:induction false} SplitJoinRoundTrip(s: string, sep: string)
    requires |sep| > 0
    ensures Join(Split(s, sep), sep) == s
    decreases |s|
  {
    if s == [] {
    } else if sep <= s {
      var rest := Split(s[|sep|..], sep);
      assert Split(s, sep) == [[]] + rest;
      SplitJoinRoundTrip(s[|sep|..], sep);
      assert ([[]] + rest)[1..] == rest;
      assert Join([[]] + rest, sep) == sep + Join(rest, sep);
      assert s == sep + s[|sep|..];
    } else {
      var rest := Split(s[1..], sep);
      assert Split(s, sep) == [[s[0]] + rest[0]] + rest[1..];
      SplitJoinRoundTrip(s[1..], sep);
      JoinExtendHead([s[0]], rest, sep);
      assert s == [s[0]] + s[1..];
    }
  }

  /** No piece of a split on a one-character separator contains that character. */
  lemma {:induction false} SplitPartsAvoidSeparator(s: string, c: char)
    ensures forall k :: 0 <= k < |Split(s, [c])| ==> c !in Split(s, [c])[k]
    decreases |s|
  {
    if s == [] {
    } else if [c] <= s {
      SplitPartsAvoidSeparator(s[1..], c);
    } else {
      SplitPartsAvoidSeparator(s[1..], c);
      assert s[0] != c;
    }
  }

  /** Splitting on a one-character separator yields one more piece than there are separators. */
  lemma {:induction false} SplitCount(s: string, c: char)
    ensures |Split(s, [c])| == multiset(s)[c] + 1
    decreases |s|
  {
    if s == [] {
    } else {
      SplitCount(s[1..], c);
      assert s == [s[0]] + s[1..];
      assert multiset(s) == multiset([s[0]]) + multiset(s[1..]);
      if [c] <= s {
        assert s[0] == c;
      } else {
        assert s[0] != c;
      }
    }
  }

  /** A string without the separator character splits into itself alone. */
  lemma SplitWithoutSeparator(s: string, c: char)
    requires c !in s
    ensures Split(s, [c]) == [s]
  {
    SplitCount(s, c);
    assert multiset(s)[c] == 0;
    SplitJoinRoundTrip(s, [c]);
  }

  /** A piece free of the separator, followed by the separator, splits off as the first piece. */
  lemma {:induction false} SplitAfterPiece(p: string, c: char, rest: string)
    requires c !in p
    ensures Split(p + [c] + rest, [c]) == [p] + Split(rest, [c])
    decreases |p|
  {
    var s := p + [c] + rest;
    if p == [] {
      assert s == [c] + rest;
      assert s[1..] == rest;
    } else {
      assert s[1..] == p[1..] + [c] + rest;
      SplitAfterPiece(p[1..], c, rest);
      var tail := Split(s[1..], [c]);
      assert tail == [p[1..]] + Split(rest, [c]);
      assert s[0] == p[0] && p[0] != c;
      assert !([c] <= s);
      assert Split(s, [c]) == [[s[0]] + tail[0]] + tail[1..];
      assert [s[0]] + tail[0] == p;
      assert tail[1..] == Split(rest, [c]);
    }
  }

  /** Splitting a joined list of separator-free pieces gives the pieces back: the other half of
      the split/join round trip. */
  lemma {:induction false} JoinSplitRoundTrip(parts: seq<string>, c: char)
    requires |parts| >= 1
    requires forall k :: 0 <= k < |parts| ==> c !in parts[k]
    ensures Split(Join(parts, [c]), [c]) == parts
  {
    if |parts| == 1 {
      SplitWithoutSeparator(parts[0], c);
    } else {
      JoinSplitRoundTrip(parts[1..], c);
      SplitAfterPiece(parts[0], c, Join(parts[1..], [c]));
    }
  }

  /** Joining separator-free pieces with a separator that lacks `c` yields a string without `c`. */
  lemma {:induction false} JoinAvoids(parts: seq<string>, sep: string, c: char)
    requires forall k :: 0 <= k < |parts| ==> c !in parts[k]
    requires c !in sep
    ensures c !in Join(parts, sep)
  {
    if |parts| > 1 {
      JoinAvoids(parts[1..], sep, c);
    }
  }

  /** An occurrence in `a + b` that starts inside `b` is an occurrence in `b`, and conversely. */
  lemma OccursAfterPrefix(a: string, b: string, sub: string, i: int)
    requires i >= |a|
    ensures OccursAt(a + b, sub, i) <==> OccursAt(b, sub, i - |a|)
  {
    if i + |sub| <= |a + b| {
      assert (a + b)[i..i + |sub|] == b[i - |a|..i - |a| + |sub|];
    }
  }

  /** An occurrence of a non-empty needle starts with the needle's first character. */
  lemma OccursAtStartsWithHead(s: string, sub: string, i: int)
    requires |sub| > 0 && 0 <= i < |s| && s[i] != sub[0]
    ensures !OccursAt(s, sub, i)
  {
    if i + |sub| <= |s| {
      assert s[i..i + |sub|][0] == s[i];
    }
  }

  /** A string in which the needle's first two characters never stand side by side does not
      contain the needle. */
  lemma NoAdjacentPair(s: string, sub: string)
    requires |sub| >= 2
    requires forall i :: 0 <= i < |s| - 1 ==> !(s[i] == sub[0] && s[i + 1] == sub[1])
    ensures !Contains(s, sub)
  {
    forall i ensures !OccursAt(s, sub, i) {
      if 0 <= i && i + |sub| <= |s| {
        assert s[i..i + |sub|][0] == s[i] && s[i..i + |sub|][1] == s[i + 1];
      }
    }
  }
}
