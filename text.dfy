/** The pieces of Go's `strings` package that the core relies on, over `seq<char>`
    (one `char` per rune), and the rune reversal that `reverse` computes. */
module Text {

  /** `s` read back to front: the value both revisions of `reverse` return. */
  function Reversed(s: string): (r: string)
    ensures |r| == |s|
  {
    if s == [] then [] else Reversed(s[1..]) + [s[0]]
  }

  lemma {:induction false} ReversedAt(s: string, k: int)
    requires 0 <= k < |s|
    ensures Reversed(s)[k] == s[|s| - 1 - k]
  {
    if k < |s| - 1 {
      ReversedAt(s[1..], k);
    }
  }

  /** Reversing twice gives the text back. */
  lemma ReversedInvolution(s: string)
    ensures Reversed(Reversed(s)) == s
  {
    forall k | 0 <= k < |s|
      ensures Reversed(Reversed(s))[k] == s[k]
    {
      ReversedAt(Reversed(s), k);
      ReversedAt(s, |s| - 1 - k);
    }
  }

  lemma ReversedAppend(a: string, b: string)
    ensures Reversed(a + b) == Reversed(b) + Reversed(a)
  {
    var l, r := Reversed(a + b), Reversed(b) + Reversed(a);
    forall k | 0 <= k < |l|
      ensures l[k] == r[k]
    {
      ReversedAt(a + b, k);
      if k < |b| {
        ReversedAt(b, k);
      } else {
        ReversedAt(a, k - |b|);
      }
    }
  }

  /** Splitting off the last element of the right operand of a concatenation. */
  lemma AppendLast<T>(a: seq<T>, b: seq<T>)
    requires b != []
    ensures a + b == (a + b[..|b| - 1]) + [b[|b| - 1]]
  {
    assert b == b[..|b| - 1] + [b[|b| - 1]];
  }

  /** A prefix of `s` up to `j` is its prefix up to `i` and the slice between. */
  lemma SliceSplit<T>(s: seq<T>, i: int, j: int)
    requires 0 <= i <= j <= |s|
    ensures s[..j] == s[..i] + s[i..j]
  {
  }

  lemma PrefixOfAppend<T>(a: seq<T>, c: seq<T>)
    ensures (a + c)[..|a|] == a
  {
  }

  /** `strings.HasSuffix`. */
  predicate HasSuffix(s: string, suffix: string) {
    |suffix| <= |s| && s[|s| - |suffix|..] == suffix
  }

  /** `strings.TrimSuffix`: drops one trailing copy of `suffix`, if there is one. */
  function TrimSuffix(s: string, suffix: string): (r: string)
    ensures HasSuffix(s, suffix) ==> r + suffix == s
    ensures !HasSuffix(s, suffix) ==> r == s
  {
    if HasSuffix(s, suffix) then s[..|s| - |suffix|] else s
  }

  lemma TrimAppendedSuffix(s: string, suffix: string)
    ensures TrimSuffix(s + suffix, suffix) == s
  {
    assert (s + suffix)[|s|..] == suffix;
  }

  /** The text before the first `sep`, or all of `s` when there is none. */
  function TakeUntil(s: string, sep: char): (r: string)
    ensures sep !in r
    ensures |r| <= |s| && r == s[..|r|]
    ensures |r| < |s| ==> s[|r|] == sep
  {
    if s == [] || s[0] == sep then [] else [s[0]] + TakeUntil(s[1..], sep)
  }

  /** `strings.Split(s, string(sep))` for a one-rune separator: the pieces
      between the separators, in order, never an empty list. */
  function Split(s: string, sep: char): (parts: seq<string>)
    ensures |parts| >= 1
    ensures forall i :: 0 <= i < |parts| ==> sep !in parts[i]
  {
    if s == [] then [""]
    else
      var rest := Split(s[1..], sep);
      if s[0] == sep then [""] + rest else [[s[0]] + rest[0]] + rest[1..]
  }

  /** The first piece of a split is the text before the first separator, and
      what follows that separator splits on its own. */
  lemma {:induction false} SplitAtFirst(s: string, sep: char)
    ensures Split(s, sep)[0] == TakeUntil(s, sep)
    ensures sep in s ==> |TakeUntil(s, sep)| < |s|
    ensures sep in s ==>
      Split(s, sep) == [TakeUntil(s, sep)] + Split(s[|TakeUntil(s, sep)| + 1..], sep)
  {
    if s != [] && s[0] != sep {
      SplitAtFirst(s[1..], sep);
      assert s == [s[0]] + s[1..];
    }
  }

  /** A text with no separator splits into itself. */
  lemma {:induction false} SplitNone(s: string, sep: char)
    requires sep !in s
    ensures Split(s, sep) == [s]
  {
    if s != [] {
      SplitNone(s[1..], sep);
      assert s == [s[0]] + s[1..];
    }
  }

  /** A piece with no separator, a separator, then the rest: the piece comes
      first and the rest splits on its own. */
  lemma SplitCons(a: string, sep: char, b: string)
    requires sep !in a
    ensures Split(a + [sep] + b, sep) == [a] + Split(b, sep)
  {
    var s := a + [sep] + b;
    SplitAtFirst(s, sep);
    var r := TakeUntil(s, sep);
    assert s[|a|] == sep;
    assert r == a;
    assert s[|a| + 1..] == b;
  }

  /** Splitting undoes joining with the same separator, as long as no piece
      holds it. */
  lemma {:induction false} SplitJoin(parts: seq<string>, sep: char)
    requires |parts| >= 1
    requires forall i :: 0 <= i < |parts| ==> sep !in parts[i]
    ensures Split(Join(parts, [sep]), sep) == parts
  {
    if |parts| == 1 {
      SplitNone(parts[0], sep);
    } else {
      SplitJoin(parts[1..], sep);
      SplitCons(parts[0], sep, Join(parts[1..], [sep]));
      assert parts == [parts[0]] + parts[1..];
    }
  }

  /** `strings.Split(s, "")`: one piece per rune. */
  function Explode(s: string): seq<string> {
    if s == [] then [] else [[s[0]]] + Explode(s[1..])
  }

  /** `strings.Join`. */
  function Join(parts: seq<string>, sep: string): string {
    if |parts| == 0 then ""
    else if |parts| == 1 then parts[0]
    else parts[0] + sep + Join(parts[1..], sep)
  }

  /** `s` with every `c` taken out. */
  function Remove(s: string, c: char): (r: string)
    ensures c !in r
    ensures |r| <= |s|
  {
    if s == [] then [] else (if s[0] == c then [] else [s[0]]) + Remove(s[1..], c)
  }

  lemma {:induction false} RemoveAppend(a: string, b: string, c: char)
    ensures Remove(a + b, c) == Remove(a, c) + Remove(b, c)
  {
    if a == [] {
      assert a + b == b;
    } else {
      var head := if a[0] == c then [] else [a[0]];
      assert (a + b)[0] == a[0] && (a + b)[1..] == a[1..] + b;
      calc {
        Remove(a + b, c);
        head + Remove(a[1..] + b, c);
        { RemoveAppend(a[1..], b, c); }
        head + (Remove(a[1..], c) + Remove(b, c));
        (head + Remove(a[1..], c)) + Remove(b, c);
      }
    }
  }

  lemma {:induction false} RemoveAbsent(s: string, c: char)
    requires c !in s
    ensures Remove(s, c) == s
  {
    if s != [] {
      RemoveAbsent(s[1..], c);
    }
  }

  lemma {:induction false} RemoveReversed(s: string, c: char)
    ensures Remove(Reversed(s), c) == Reversed(Remove(s, c))
  {
    if s != [] {
      var head := if s[0] == c then [] else [s[0]];
      RemoveReversed(s[1..], c);
      RemoveAppend(Reversed(s[1..]), [s[0]], c);
      assert Remove([s[0]], c) == head;
      ReversedAppend(head, Remove(s[1..], c));
      assert Reversed(head) == head;
    }
  }

  /** Joining the pieces of a split with nothing between them is the same as
      deleting the separators: `strings.Join(strings.Split(s, "."), "")`. */
  lemma {:induction false} JoinSplitRemoves(s: string, sep: char)
    ensures Join(Split(s, sep), "") == Remove(s, sep)
  {
    if s != [] {
      var rest := Split(s[1..], sep);
      JoinSplitRemoves(s[1..], sep);
      if s[0] == sep {
        assert ([""] + rest)[1..] == rest;
      } else {
        assert ([[s[0]] + rest[0]] + rest[1..])[1..] == rest[1..];
        if |rest| > 1 {
          assert Join(rest, "") == rest[0] + "" + Join(rest[1..], "");
        }
      }
    }
  }

  /** `strings.Join(strings.Split(s, ""), [d])` puts `d` between every two runes. */
  lemma {:induction false} DottedAt(s: string, d: char)
    ensures s == [] ==> Join(Explode(s), [d]) == []
    ensures s != [] ==> |Join(Explode(s), [d])| == 2 * |s| - 1
    ensures forall i :: 0 <= i < |Join(Explode(s), [d])| ==>
      Join(Explode(s), [d])[i] == if i % 2 == 0 then s[i / 2] else d
  {
    if |s| > 1 {
      DottedAt(s[1..], d);
      DottedStep(s, d);
      var j := Join(Explode(s[1..]), [d]);
      forall i | 0 <= i < |[s[0], d] + j|
        ensures ([s[0], d] + j)[i] == if i % 2 == 0 then s[i / 2] else d
      {
        if i >= 2 {
          assert ([s[0], d] + j)[i] == j[i - 2];
          assert (i - 2) % 2 == i % 2 && (i - 2) / 2 + 1 == i / 2;
        }
      }
    } else if |s| == 1 {
      assert Explode(s) == [[s[0]]];
    }
  }

  /** A dotted join of two or more runes: the first rune, the separator,
      then the dotted join of the rest. */
  lemma DottedStep(s: string, d: char)
    requires |s| > 1
    ensures Join(Explode(s), [d]) == [s[0], d] + Join(Explode(s[1..]), [d])
  {
    var t := Explode(s[1..]);
    assert t != [];
    assert Explode(s) == [[s[0]]] + t;
    JoinCons([s[0]], t, [d]);
    assert [s[0]] + [d] == [s[0], d];
  }

  /** Joining a part in front of at least one more. */
  lemma JoinCons(p: string, rest: seq<string>, sep: string)
    requires rest != []
    ensures Join([p] + rest, sep) == p + sep + Join(rest, sep)
  {
    assert ([p] + rest)[0] == p;
    assert ([p] + rest)[1..] == rest;
  }

  /** Taking out the separators that a dotted join put in leaves the runes. */
  lemma {:induction false} RemoveDotted(s: string, d: char)
    ensures Remove(Join(Explode(s), [d]), d) == Remove(s, d)
  {
    if |s| > 1 {
      DottedStep(s, d);
      RemoveDotted(s[1..], d);
      RemoveAppend([s[0]] + [d], Join(Explode(s[1..]), [d]), d);
      RemoveAppend([s[0]], [d], d);
      RemoveAppend([s[0]], s[1..], d);
      assert s == [s[0]] + s[1..];
    }
  }

  /** Reversing a dotted join is the dotted join of the reversal. */
  lemma ReversedDotted(s: string, d: char)
    ensures Reversed(Join(Explode(s), [d])) == Join(Explode(Reversed(s)), [d])
  {
    var j, rs := Join(Explode(s), [d]), Reversed(s);
    DottedLength(s, d);
    DottedLength(rs, d);
    var l, r := Reversed(j), Join(Explode(rs), [d]);
    forall i | 0 <= i < |l|
      ensures l[i] == r[i]
    {
      ReversedAt(j, i);
      MirroredIndex(|s|, i);
      DottedCharAt(s, d, |j| - 1 - i);
      DottedCharAt(rs, d, i);
      if i % 2 == 0 {
        ReversedAt(s, i / 2);
      }
    }
  }

  lemma DottedLength(s: string, d: char)
    ensures |Join(Explode(s), [d])| == if s == [] then 0 else 2 * |s| - 1
  {
    DottedAt(s, d);
  }

  lemma DottedCharAt(s: string, d: char, i: int)
    requires 0 <= i < 2 * |s| - 1
    ensures |Join(Explode(s), [d])| == 2 * |s| - 1
      && Join(Explode(s), [d])[i] == if i % 2 == 0 then s[i / 2] else d
  {
    DottedAt(s, d);
  }

  /** Position `i` of a dotted join of `n` runes and its mirror position
      are both runes or both separators; a rune at `i` mirrors rune
      `n - 1 - i / 2`. */
  lemma MirroredIndex(n: int, i: int)
    requires 0 <= i < 2 * n - 1
    ensures var m := 2 * n - 2 - i;
      (i % 2 == 0 <==> m % 2 == 0) && (i % 2 == 0 ==> m / 2 == n - 1 - i / 2)
  {
    var q := i / 2;
    if i % 2 == 0 {
      assert i == 2 * q && 2 * n - 2 - i == 2 * (n - 1 - q);
    } else {
      assert i == 2 * q + 1 && 2 * n - 2 - i == 2 * (n - 2 - q) + 1;
    }
  }

  /** One rune of `strings.ToLower`, for ASCII letters. */
  function LowerChar(c: char): char {
    if 'A' <= c <= 'Z' then (c as int - 'A' as int + 'a' as int) as char else c
  }

  /** `strings.ToLower`, for ASCII text. */
  function ToLower(s: string): string {
    seq(|s|, i requires 0 <= i < |s| => LowerChar(s[i]))
  }

  /** The text has no ASCII upper-case letter, so `ToLower` leaves it alone. */
  predicate NoUpper(s: string) {
    forall c :: c in s ==> !('A' <= c <= 'Z')
  }

  lemma ToLowerOfNoUpper(s: string)
    requires NoUpper(s)
    ensures ToLower(s) == s
  {
    forall i | 0 <= i < |s|
      ensures ToLower(s)[i] == s[i]
    {
      assert s[i] in s;
    }
  }

  /** `ToLower` writes no upper-case letter, so applying it twice is applying
      it once. */
  lemma ToLowerIdempotent(s: string)
    ensures NoUpper(ToLower(s))
    ensures ToLower(ToLower(s)) == ToLower(s)
  {
    ToLowerOfNoUpper(ToLower(s));
  }

  lemma {:induction false} ReversedMembers(s: string)
    ensures forall c :: c in Reversed(s) ==> c in s
  {
    if s != [] {
      ReversedMembers(s[1..]);
    }
  }

  lemma {:induction false} DottedMembers(s: string, d: char)
    ensures forall c :: c in Join(Explode(s), [d]) ==> c in s || c == d
  {
    if |s| > 1 {
      DottedMembers(s[1..], d);
      DottedStep(s, d);
    }
  }

  lemma {:induction false} RemoveMembers(s: string, c: char)
    ensures forall x :: x in Remove(s, c) ==> x in s
  {
    if s != [] {
      RemoveMembers(s[1..], c);
    }
  }

  lemma TrimSuffixMembers(s: string, suffix: string)
    ensures forall x :: x in TrimSuffix(s, suffix) ==> x in s
  {
  }

  lemma AppendedHasSuffix(s: string, suffix: string)
    ensures HasSuffix(s + suffix, suffix)
  {
    assert (s + suffix)[|s|..] == suffix;
  }

  /** Lowering case neither makes nor removes a rune that is not a letter. */
  lemma ToLowerKeepsNonLetter(s: string, c: char)
    requires !('A' <= c <= 'Z') && !('a' <= c <= 'z')
    ensures c in ToLower(s) <==> c in s
  {
    if c in ToLower(s) {
      var i :| 0 <= i < |s| && ToLower(s)[i] == c;
      assert s[i] == c;
    }
    if c in s {
      var i :| 0 <= i < |s| && s[i] == c;
      assert ToLower(s)[i] == c;
    }
  }
}
