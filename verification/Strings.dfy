/** strings.Split and strings.Join with a separator of one character. */
module Strings {

  function Split(s: string, sep: char): (r: seq<string>)
    ensures r != []
  {
    if s == "" then [""]
    else
      var rest := Split(s[1..], sep);
      if s[0] == sep then [""] + rest else [[s[0]] + rest[0]] + rest[1..]
  }

  function Join(xs: seq<string>, sep: char): string {
    if xs == [] then "" else if |xs| == 1 then xs[0] else xs[0] + [sep] + Join(xs[1..], sep)
  }

  lemma {:induction false} PiecesAreFree(s: string, sep: char)
    ensures forall x :: x in Split(s, sep) ==> sep !in x
  {
    if s != "" {
      PiecesAreFree(s[1..], sep);
      var rest := Split(s[1..], sep);
      assert rest[0] in rest && forall x :: x in rest[1..] ==> x in rest;
    }
  }

  lemma {:induction false} OnePiece(s: string, sep: char)
    requires sep !in s
    ensures Split(s, sep) == [s]
  {
    if s != "" {
      OnePiece(s[1..], sep);
      assert [s[0]] + s[1..] == s;
    }
  }

  lemma {:induction false} FirstPiece(a: string, b: string, sep: char)
    requires sep !in a
    ensures Split(a + [sep] + b, sep) == [a] + Split(b, sep)
  {
    if a == "" {
      assert (a + [sep] + b)[1..] == b;
    } else {
      FirstPiece(a[1..], b, sep);
      assert (a + [sep] + b)[1..] == a[1..] + [sep] + b;
      assert [a[0]] + a[1..] == a;
    }
  }

  lemma {:induction false} SplitsBack(xs: seq<string>, sep: char)
    requires xs != [] && forall x :: x in xs ==> sep !in x
    ensures Split(Join(xs, sep), sep) == xs
  {
    assert xs[0] in xs;
    if |xs| == 1 {
      OnePiece(xs[0], sep);
    } else {
      SplitsBack(xs[1..], sep);
      FirstPiece(xs[0], Join(xs[1..], sep), sep);
    }
  }

  /** Splitting a joined list gives it back if and only if it is not empty and free of the separator. */
  lemma SplitJoinIff(xs: seq<string>, sep: char)
    ensures Split(Join(xs, sep), sep) == xs <==> xs != [] && forall x :: x in xs ==> sep !in x
  {
    if xs != [] && forall x :: x in xs ==> sep !in x {
      SplitsBack(xs, sep);
    } else {
      PiecesAreFree(Join(xs, sep), sep);
    }
  }

  lemma {:induction false} JoinsBack(s: string, sep: char)
    ensures Join(Split(s, sep), sep) == s
  {
    if s != "" {
      var rest := Split(s[1..], sep);
      JoinsBack(s[1..], sep);
      if s[0] == sep {
        assert ([""] + rest)[1..] == rest;
        assert "" + [sep] + s[1..] == s;
      } else {
        var first := [s[0]] + rest[0];
        assert ([first] + rest[1..])[1..] == rest[1..];
        assert [s[0]] + s[1..] == s;
        if |rest| > 1 {
          assert first + [sep] + Join(rest[1..], sep) == [s[0]] + Join(rest, sep);
        }
      }
    }
  }
}
