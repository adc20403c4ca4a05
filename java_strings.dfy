/**
  The few `java.lang.String` operations the messenger relies on, stated over
  `seq<char>`.  Each one follows the Java library's documented behaviour for
  the single-character pattern `" "` that the program passes to `split`.
 */
module JavaStrings {

  /** `s.startsWith(prefix)` */
  predicate StartsWith(s: string, prefix: string)
  {
    |prefix| <= |s| && s[..|prefix|] == prefix
  }

  /** `sub` occurs in `s` starting at position `i`. */
  predicate OccursAt(s: string, sub: string, i: int)
  {
    0 <= i && i + |sub| <= |s| && s[i..i + |sub|] == sub
  }

  /** `s.contains(sub)` */
  predicate Contains(s: string, sub: string)
  {
    exists i | 0 <= i <= |s| :: OccursAt(s, sub, i)
  }

  /** `s.indexOf(c)` when `c` occurs: the first position holding `c`. */
  function IndexOf(s: string, c: char): (i: nat)
    requires c in s
    ensures i < |s| && s[i] == c
    ensures c !in s[..i]
  {
    if s[0] == c then 0 else 1 + IndexOf(s[1..], c)
  }

  /** `s.lastIndexOf(c)`: the last position holding `c`, or -1 when there is none. */
  function LastIndexOf(s: string, c: char): (i: int)
    ensures -1 <= i < |s|
    ensures i >= 0 ==> s[i] == c
    ensures c !in s[i + 1..]
  {
    if |s| == 0 then -1
    else if s[|s| - 1] == c then |s| - 1
    else LastIndexOf(s[..|s| - 1], c)
  }

  /**
    Every piece of `s` between single spaces, empty pieces included, in order
    (what `s.split(" ", -1)` returns).
   */
  function Fields(s: string): (r: seq<string>)
    ensures |r| >= 1
    decreases |s|
  {
    if ' ' !in s then [s]
    else
      var i := IndexOf(s, ' ');
      [s[..i]] + Fields(s[i + 1..])
  }

  /** The pieces put back together with one space between neighbours. */
  function Join(pieces: seq<string>): string
  {
    if |pieces| == 0 then ""
    else if |pieces| == 1 then pieces[0]
    else pieces[0] + " " + Join(pieces[1..])
  }

  /** The longest prefix of `pieces` that does not end in an empty string. */
  function DropTrailingEmpty(pieces: seq<string>): (r: seq<string>)
    ensures r <= pieces
    ensures r == [] || r[|r| - 1] != ""
    ensures forall k | |r| <= k < |pieces| :: pieces[k] == ""
  {
    if |pieces| > 0 && pieces[|pieces| - 1] == "" then DropTrailingEmpty(pieces[..|pieces| - 1])
    else pieces
  }

  /**
    `s.split(" ")`: the fields of `s` with trailing empty strings removed;
    a string without any space comes back whole (even the empty string).
   */
  function Split(s: string): seq<string>
  {
    if ' ' !in s then [s] else DropTrailingEmpty(Fields(s))
  }

  /**
    `s.split(" ", 3)`: the text is cut at its first two spaces at most, so
    there are at most three pieces and the last keeps the rest of the line,
    spaces and trailing empty strings included.
   */
  function SplitLimit3(s: string): (r: seq<string>)
    ensures 1 <= |r| <= 3
  {
    if ' ' !in s then [s]
    else
      var i := IndexOf(s, ' ');
      var rest := s[i + 1..];
      if ' ' !in rest then [s[..i], rest]
      else
        var j := IndexOf(rest, ' ');
        [s[..i], rest[..j], rest[j + 1..]]
  }

  /**
    The pieces of `split(" ", 3)` put back together with single spaces give
    the text; every piece but the last is free of spaces, and so is the last
    when there are fewer than three.
   */
  lemma SplitLimit3Pieces(s: string)
    ensures var r := SplitLimit3(s);
      && (|r| == 1 ==> r[0] == s && ' ' !in s)
      && (|r| == 2 ==> s == r[0] + " " + r[1] && ' ' !in r[0] && ' ' !in r[1])
      && (|r| == 3 ==> s == r[0] + " " + (r[1] + " " + r[2]) && ' ' !in r[0] && ' ' !in r[1])
  {
    var r := SplitLimit3(s);
    if ' ' in s {
      var i := IndexOf(s, ' ');
      var head, rest := s[..i], s[i + 1..];
      CutAtFirstSpace(s);
      if ' ' !in rest {
        assert r == [head, rest];
      } else {
        var j := IndexOf(rest, ' ');
        CutAtFirstSpace(rest);
        assert r == [head, rest[..j], rest[j + 1..]];
      }
    }
  }

  /** A string holding a space is its part before the first space, the space, and the rest. */
  lemma CutAtFirstSpace(s: string)
    requires ' ' in s
    ensures var i := IndexOf(s, ' '); s == s[..i] + " " + s[i + 1..]
  {
    var i := IndexOf(s, ' ');
    assert s == s[..i] + [s[i]] + s[i + 1..];
  }

  /** In `h + " " + rest` with no space in `h`, the first space follows `h`. */
  lemma FirstSpace(h: string, rest: string)
    requires ' ' !in h
    ensures var s := h + " " + rest;
      ' ' in s && IndexOf(s, ' ') == |h| && s[..|h|] == h && s[|h| + 1..] == rest
  {
    var s := h + " " + rest;
    assert s[|h|] == ' ';
    assert s[..|h|] == h;
    assert s[|h| + 1..] == rest;
  }

  /** Cutting at the first space of `h + " " + rest` when `h` has no space. */
  lemma FieldsCons(h: string, rest: string)
    requires ' ' !in h
    ensures Fields(h + " " + rest) == [h] + Fields(rest)
  {
    FirstSpace(h, rest);
  }

  /** `split(" ", 3)` gives back the two space-free leading pieces and the rest. */
  lemma SplitLimit3Cons(a: string, b: string, c: string)
    requires ' ' !in a && ' ' !in b
    ensures SplitLimit3(a + " " + (b + " " + c)) == [a, b, c]
  {
    FirstSpace(a, b + " " + c);
    FirstSpace(b, c);
  }

  /** Joining the fields of a string gives the string back. */
  lemma {:induction false} JoinFields(s: string)
    ensures Join(Fields(s)) == s
    decreases |s|
  {
    if ' ' in s {
      var i := IndexOf(s, ' ');
      var head, rest := s[..i], s[i + 1..];
      CutAtFirstSpace(s);
      JoinFields(rest);
      var fs := Fields(s);
      assert fs == [head] + Fields(rest);
      assert fs[1..] == Fields(rest);
    }
  }

  /** No field holds a space. */
  lemma {:induction false} FieldsSpaceFree(s: string)
    ensures forall k | 0 <= k < |Fields(s)| :: ' ' !in Fields(s)[k]
    decreases |s|
  {
    if ' ' in s {
      var i := IndexOf(s, ' ');
      var head, rest := s[..i], s[i + 1..];
      FieldsSpaceFree(rest);
      var fs := Fields(s);
      assert fs == [head] + Fields(rest);
      forall k | 0 <= k < |fs|
        ensures ' ' !in fs[k]
      {
        if k > 0 {
          assert fs[k] == Fields(rest)[k - 1];
        }
      }
    }
  }

  /** Cutting a joined sequence of space-free pieces at its spaces gives the pieces back. */
  lemma {:induction false} FieldsJoin(pieces: seq<string>)
    requires |pieces| >= 1
    requires forall k | 0 <= k < |pieces| :: ' ' !in pieces[k]
    ensures Fields(Join(pieces)) == pieces
    decreases |pieces|
  {
    if |pieces| == 1 {
      assert Join(pieces) == pieces[0];
    } else {
      var tail := pieces[1..];
      assert forall k | 0 <= k < |tail| :: tail[k] == pieces[k + 1];
      FieldsJoin(tail);
      assert Join(pieces) == pieces[0] + " " + Join(tail);
      FieldsCons(pieces[0], Join(tail));
      assert pieces == [pieces[0]] + tail;
    }
  }

  /**
    Dropping trailing empty strings keeps index `k` exactly when some piece
    at `k` or later is not empty.
   */
  lemma DropTrailingEmptyReach(pieces: seq<string>, k: nat)
    ensures k < |DropTrailingEmpty(pieces)| <==> k < |pieces| && SomeNonEmpty(pieces[k..])
  {
    var r := DropTrailingEmpty(pieces);
    if k < |r| {
      assert pieces[k..][|r| - 1 - k] == r[|r| - 1];
    }
    if k < |pieces| && SomeNonEmpty(pieces[k..]) {
      var j :| 0 <= j < |pieces[k..]| && pieces[k..][j] != "";
      assert pieces[k + j] != "";
    }
  }

  /**
    `s.split(" ")` is `[s]` when `s` holds no space.  It is always a prefix of
    the fields of `s`, and when `s` holds a space it reaches index `k` exactly
    when some field at index `k` or later is not empty.
   */
  lemma SplitFields(s: string, k: nat)
    ensures ' ' !in s ==> Split(s) == [s]
    ensures Split(s) <= Fields(s)
    ensures ' ' in s ==>
      (k < |Split(s)| <==> k < |Fields(s)| && SomeNonEmpty(Fields(s)[k..]))
  {
    if ' ' in s {
      DropTrailingEmptyReach(Fields(s), k);
    }
  }

  /** Some character of `s` is not a space. */
  predicate HasNonSpace(s: string)
  {
    exists k | 0 <= k < |s| :: s[k] != ' '
  }

  /** Some piece is not empty. */
  predicate SomeNonEmpty(pieces: seq<string>)
  {
    exists j | 0 <= j < |pieces| :: pieces[j] != ""
  }

  lemma SomeNonEmptyCons(x: string, rest: seq<string>)
    ensures SomeNonEmpty([x] + rest) <==> x != "" || SomeNonEmpty(rest)
  {
    var xs := [x] + rest;
    if x != "" { assert xs[0] == x; }
    if SomeNonEmpty(rest) {
      var j :| 0 <= j < |rest| && rest[j] != "";
      assert xs[j + 1] == rest[j];
    }
    if SomeNonEmpty(xs) {
      var j :| 0 <= j < |xs| && xs[j] != "";
      if j > 0 { assert rest[j - 1] == xs[j]; }
    }
  }

  /** A string has a non-empty field exactly when it holds a character other than a space. */
  lemma NonEmptyField(s: string)
    ensures SomeNonEmpty(Fields(s)) <==> HasNonSpace(s)
  {
    if HasNonSpace(s) { NonSpaceGivesField(s); }
    if SomeNonEmpty(Fields(s)) { FieldGivesNonSpace(s); }
  }

  lemma {:induction false} NonSpaceGivesField(s: string)
    requires HasNonSpace(s)
    ensures SomeNonEmpty(Fields(s))
    decreases |s|
  {
    var k :| 0 <= k < |s| && s[k] != ' ';
    if ' ' !in s {
      assert Fields(s)[0] == s;
    } else {
      var i := IndexOf(s, ' ');
      var head, rest := s[..i], s[i + 1..];
      var fs := Fields(s);
      assert fs == [head] + Fields(rest);
      if k < i {
        assert head[k] == s[k];
        assert fs[0] != "";
      } else {
        assert rest[k - i - 1] == s[k];
        NonSpaceGivesField(rest);
        var j :| 0 <= j < |Fields(rest)| && Fields(rest)[j] != "";
        assert fs[j + 1] == Fields(rest)[j];
      }
    }
  }

  lemma {:induction false} FieldGivesNonSpace(s: string)
    requires SomeNonEmpty(Fields(s))
    ensures HasNonSpace(s)
    decreases |s|
  {
    if ' ' !in s {
      assert Fields(s)[0] == s;
      assert s[0] != ' ';
    } else {
      var i := IndexOf(s, ' ');
      var head, rest := s[..i], s[i + 1..];
      assert Fields(s) == [head] + Fields(rest);
      SomeNonEmptyCons(head, Fields(rest));
      if head != "" {
        assert s[0] == head[0];
      } else {
        FieldGivesNonSpace(rest);
        NonSpaceInSuffix(s, i + 1);
      }
    }
  }

  lemma NonSpaceInSuffix(s: string, n: nat)
    requires n <= |s| && HasNonSpace(s[n..])
    ensures HasNonSpace(s)
  {
    var k :| 0 <= k < |s[n..]| && s[n..][k] != ' ';
    assert s[n + k] == s[n..][k];
  }
}
