/**
 * The text of a buffer as one string: `to_string` (src/app/file.rs:41-50,
 * src/app/open_file.rs:148-157) writes the lines with one '\n' between
 * neighbours and none at the end. `Join` is that string, `Split` cuts a
 * string at every '\n', and the two are inverse on line sequences whose
 * lines hold no '\n'. `Before` and `After` are the pieces of the text on
 * either side of one line, used to say where an edit lands in the text.
 */
module Lines {

  /** Every line followed by '\n'. */
  function Before(ls: seq<seq<char>>): seq<char> {
    if ls == [] then [] else Before(ls[..|ls| - 1]) + ls[|ls| - 1] + ['\n']
  }

  /** Every line preceded by '\n'. */
  function After(ls: seq<seq<char>>): seq<char> {
    if ls == [] then [] else ['\n'] + ls[0] + After(ls[1..])
  }

  /** The lines with one '\n' between neighbours. */
  function Join(ls: seq<seq<char>>): seq<char> {
    if ls == [] then [] else ls[0] + After(ls[1..])
  }

  /** Cuts `s` at every '\n'; a string without '\n' is one line. */
  function Split(s: seq<char>): (r: seq<seq<char>>)
    ensures |r| >= 1
  {
    if s == [] then [[]]
    else
      var rest := Split(s[1..]);
      if s[0] == '\n' then [[]] + rest else [[s[0]] + rest[0]] + rest[1..]
  }

  predicate NoNewlines(ls: seq<seq<char>>) {
    forall i :: 0 <= i < |ls| ==> '\n' !in ls[i]
  }

  lemma {:induction false} AfterAppend(a: seq<seq<char>>, b: seq<seq<char>>)
    ensures After(a + b) == After(a) + After(b)
  {
    if a == [] {
      assert a + b == b;
    } else {
      assert (a + b)[1..] == a[1..] + b;
      AfterAppend(a[1..], b);
    }
  }

  lemma AfterIsNewlineJoin(b: seq<seq<char>>)
    requires b != []
    ensures After(b) == ['\n'] + Join(b)
  {
  }

  lemma JoinAppend(a: seq<seq<char>>, b: seq<seq<char>>)
    requires a != []
    ensures Join(a + b) == Join(a) + After(b)
  {
    assert (a + b)[1..] == a[1..] + b;
    AfterAppend(a[1..], b);
  }

  lemma {:induction false} BeforeJoin(a: seq<seq<char>>, b: seq<seq<char>>)
    requires b != []
    ensures Join(a + b) == Before(a) + Join(b)
  {
    if a != [] {
      var a', x := a[..|a| - 1], a[|a| - 1];
      assert a + b == a' + ([x] + b);
      BeforeJoin(a', [x] + b);
      assert ([x] + b)[1..] == b;
      AfterIsNewlineJoin(b);
      assert Join([x] + b) == x + ['\n'] + Join(b);
      assert a[..|a| - 1] == a';
      assert Before(a) == Before(a') + x + ['\n'];
    } else {
      assert a + b == b;
    }
  }

  lemma BeforeAppend(a: seq<seq<char>>, x: seq<char>)
    ensures Before(a + [x]) == Before(a) + x + ['\n']
  {
    assert (a + [x])[..|a|] == a;
  }

  /**
   * Replacing lines `[i, j)` by `mid` changes the text only between the
   * text before line `i` and the text after line `j - 1`.
   */
  lemma JoinSplice(ls: seq<seq<char>>, i: nat, j: nat, mid: seq<seq<char>>)
    requires i < j <= |ls| && mid != []
    ensures Join(ls) == Before(ls[..i]) + Join(ls[i..j]) + After(ls[j..])
    ensures Join(ls[..i] + mid + ls[j..]) == Before(ls[..i]) + Join(mid) + After(ls[j..])
  {
    assert ls == ls[..i] + ls[i..j] + ls[j..];
    JoinAppend(ls[..i] + ls[i..j], ls[j..]);
    BeforeJoin(ls[..i], ls[i..j]);
    JoinAppend(ls[..i] + mid, ls[j..]);
    BeforeJoin(ls[..i], mid);
  }

  lemma JoinOne(x: seq<char>)
    ensures Join([x]) == x
  {
    assert [x][1..] == [];
  }

  lemma JoinTwo(x: seq<char>, y: seq<char>)
    ensures Join([x, y]) == x + ['\n'] + y
  {
    assert [x, y][1..] == [y] && [y][1..] == [];
    assert After([y]) == ['\n'] + y;
  }

  /** The text is the text before line `r`, line `r`, then the text after it. */
  lemma JoinAt(ls: seq<seq<char>>, r: nat)
    requires r < |ls|
    ensures Join(ls) == Before(ls[..r]) + ls[r] + After(ls[r + 1..])
  {
    JoinSplice(ls, r, r + 1, [ls[r]]);
    assert ls[r..r + 1] == [ls[r]];
  }

  lemma {:induction false} SplitLine(l: seq<char>, t: seq<char>)
    requires '\n' !in l
    ensures Split(l + t) == [l + Split(t)[0]] + Split(t)[1..]
  {
    if l == [] {
      assert l + t == t;
      assert l + Split(t)[0] == Split(t)[0];
      assert Split(t) == [Split(t)[0]] + Split(t)[1..];
    } else {
      assert (l + t)[1..] == l[1..] + t;
      SplitLine(l[1..], t);
      assert [l[0]] + (l[1..] + Split(t)[0]) == l + Split(t)[0];
    }
  }

  lemma SplitNewline(t: seq<char>)
    ensures Split(['\n'] + t) == [[]] + Split(t)
  {
    assert (['\n'] + t)[1..] == t;
  }

  /** Splitting the serialised text gives back the lines, when no line holds '\n'. */
  lemma {:induction false} SplitJoin(ls: seq<seq<char>>)
    requires ls != [] && NoNewlines(ls)
    ensures Split(Join(ls)) == ls
  {
    var rest := ls[1..];
    if rest == [] {
      SplitLine(ls[0], []);
      assert ls[0] + [] == ls[0];
      assert Join(ls) == ls[0] + [];
      assert Split([]) == [[]];
      assert ls == [ls[0]];
    } else {
      AfterIsNewlineJoin(rest);
      assert Join(ls) == ls[0] + (['\n'] + Join(rest));
      SplitLine(ls[0], ['\n'] + Join(rest));
      SplitNewline(Join(rest));
      assert NoNewlines(rest) by {
        forall i | 0 <= i < |rest|
          ensures '\n' !in rest[i]
        {
          assert rest[i] == ls[i + 1];
        }
      }
      SplitJoin(rest);
      var tail := Split(['\n'] + Join(rest));
      assert tail == [[]] + rest;
      assert tail[0] == [] && tail[1..] == rest;
      assert ls[0] + tail[0] == ls[0];
      assert ls == [ls[0]] + rest;
    }
  }

  /** Joining the pieces of a split gives back the string. */
  lemma {:induction false} JoinSplit(s: seq<char>)
    ensures Join(Split(s)) == s
  {
    if s != [] {
      var rest := Split(s[1..]);
      JoinSplit(s[1..]);
      if s[0] == '\n' {
        assert ([[]] + rest)[1..] == rest;
        AfterIsNewlineJoin(rest);
      } else {
        assert ([[s[0]] + rest[0]] + rest[1..])[1..] == rest[1..];
      }
    }
  }

  /** No piece of a split holds '\n'. */
  lemma {:induction false} SplitHasNoNewlines(s: seq<char>)
    ensures NoNewlines(Split(s))
  {
    if s != [] {
      SplitHasNoNewlines(s[1..]);
    }
  }
}
