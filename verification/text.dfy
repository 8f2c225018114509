/** The string operations the engine uses on ASCII art (Python's
    `str.split('\n')`, `'\n'.join`, `max(len(line) for line in lines)`,
    one-character `str.replace`) and the facts about list prefixes. */
module Text {

  /** Python's `s.split('\n')`: the pieces between newlines, always at
      least one (`"".split('\n') == [""]`). */
  function Split(s: string): (r: seq<string>)
    ensures |r| >= 1
    ensures forall k :: 0 <= k < |r| ==> '\n' !in r[k]
  {
    if s == [] then [""]
    else
      var rest := Split(s[1..]);
      if s[0] == '\n' then [""] + rest
      else [[s[0]] + rest[0]] + rest[1..]
  }

  /** Python's `'\n'.join(ls)`. */
  function Join(ls: seq<string>): string
  {
    if ls == [] then ""
    else if |ls| == 1 then ls[0]
    else ls[0] + "\n" + Join(ls[1..])
  }

  /** Joining the pieces of a split gives the original text back. */
  lemma {:induction false} JoinSplit(s: string)
    ensures Join(Split(s)) == s
  {
    if s != [] {
      var rest := Split(s[1..]);
      JoinSplit(s[1..]);
      if s[0] == '\n' {
        assert Split(s) == [""] + rest;
        assert Join(Split(s)) == "" + "\n" + Join(rest);
        assert s == "\n" + s[1..];
      } else {
        assert Split(s) == [[s[0]] + rest[0]] + rest[1..];
        if |rest| == 1 {
          assert Join(Split(s)) == [s[0]] + rest[0];
        } else {
          assert Join(rest) == rest[0] + "\n" + Join(rest[1..]);
          assert Split(s)[1..] == rest[1..];
          assert Join(Split(s)) == ([s[0]] + rest[0]) + "\n" + Join(rest[1..]);
        }
        assert s == [s[0]] + s[1..];
      }
    }
  }

  /** Splitting text that starts with a newline-free prefix glues the
      prefix onto the first piece. */
  lemma {:induction false} SplitPrefix(a: string, t: string)
    requires '\n' !in a
    ensures Split(a + t) == [a + Split(t)[0]] + Split(t)[1..]
  {
    if a != [] {
      var r := Split(t);
      SplitPrefix(a[1..], t);
      assert (a + t)[1..] == a[1..] + t;
      assert (a + t)[0] == a[0] && a[0] != '\n';
      var rest := Split(a[1..] + t);
      assert rest[0] == a[1..] + r[0] && rest[1..] == r[1..];
      assert a == [a[0]] + a[1..];
      assert [a[0]] + rest[0] == a + r[0];
    } else {
      var r := Split(t);
      assert a + t == t;
      assert a + r[0] == r[0];
      assert r == [r[0]] + r[1..];
    }
  }

  /** Text without a newline is a single line. */
  lemma SplitSingleLine(s: string)
    requires '\n' !in s
    ensures Split(s) == [s]
  {
    SplitPrefix(s, "");
    assert s + "" == s;
  }

  /** Splitting the join of newline-free pieces gives the pieces back. */
  lemma {:induction false} SplitJoin(ls: seq<string>)
    requires |ls| >= 1
    requires forall k :: 0 <= k < |ls| ==> '\n' !in ls[k]
    ensures Split(Join(ls)) == ls
  {
    if |ls| == 1 {
      SplitPrefix(ls[0], "");
      assert ls[0] + "" == ls[0];
    } else {
      var j := Join(ls[1..]);
      SplitJoin(ls[1..]);
      assert ("\n" + j)[1..] == j;
      assert Split("\n" + j) == [""] + Split(j);
      assert Join(ls) == ls[0] + ("\n" + j);
      SplitPrefix(ls[0], "\n" + j);
      assert ls[0] + "" == ls[0];
    }
  }

  /** The length of the longest line, `0` for no lines at all. */
  function MaxLen(ls: seq<string>): (m: nat)
    ensures forall k :: 0 <= k < |ls| ==> |ls[k]| <= m
    ensures |ls| > 0 ==> exists k :: 0 <= k < |ls| && |ls[k]| == m
    ensures |ls| == 0 ==> m == 0
  {
    if ls == [] then 0
    else
      var rest := MaxLen(ls[1..]);
      if |ls[0]| >= rest then |ls[0]| else rest
  }

  /** Python's `s.replace(from, to)` for one-character `from` and `to`. */
  function ReplaceChar(s: string, from: char, to: char): (r: string)
    ensures |r| == |s|
    ensures forall k :: 0 <= k < |s| ==> r[k] == (if s[k] == from then to else s[k])
  {
    if s == [] then []
    else [if s[0] == from then to else s[0]] + ReplaceChar(s[1..], from, to)
  }

  // ---------------------------------------------------------------------
  // Prefixes of sequences

  /** Being a prefix is transitive. */
  lemma PrefixTrans<T>(a: seq<T>, b: seq<T>, c: seq<T>)
    requires a <= b && b <= c
    ensures a <= c
  {
    assert c[..|b|][..|a|] == c[..|a|];
  }

  /** A list that starts with `a + h` and then `c + x` starts with `a`,
      then `h + c`. */
  lemma PrefixDrop<T>(a: seq<T>, h: seq<T>, c: seq<T>, x: seq<T>, out: seq<T>)
    requires (a + h) + (c + x) <= out
    ensures a + (h + c) <= out
  {
    assert (a + h) + (c + x) == (a + (h + c)) + x;
  }

  /** What a prefix holds, the whole list holds. */
  lemma PrefixMember<T>(a: seq<T>, b: seq<T>, x: T)
    requires a <= b && x in a
    ensures x in b
  {
    var d :| 0 <= d < |a| && a[d] == x;
    assert b[d] == x;
  }
}
