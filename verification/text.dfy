/** `String.split` on a single character and `Array.join`, with the laws that relate them. */
module Text {

  function Split(s: string, d: char): (pieces: seq<string>)
    ensures |pieces| >= 1
  {
    if s == [] then [[]]
    else
      var rest := Split(s[1..], d);
      if s[0] == d then [[]] + rest else [[s[0]] + rest[0]] + rest[1..]
  }

  function Join(pieces: seq<string>, d: char): string
  {
    if pieces == [] then []
    else if |pieces| == 1 then pieces[0]
    else pieces[0] + [d] + Join(pieces[1..], d)
  }

  lemma {:induction false} SplitAtDelimiter(a: string, b: string, d: char)
    ensures Split(a + [d] + b, d) == Split(a, d) + Split(b, d)
  {
    var s := a + [d] + b;
    if a == [] {
      assert s[0] == d && s[1..] == b;
    } else {
      SplitAtDelimiter(a[1..], b, d);
      assert s[0] == a[0] && s[1..] == a[1..] + [d] + b;
    }
  }

  // A string splits into one piece exactly when it has no delimiter, and the piece is the string.
  lemma {:induction false} SplitSingle(s: string, d: char)
    ensures |Split(s, d)| == 1 <==> d !in s
    ensures d !in s ==> Split(s, d) == [s]
  {
    if s != [] {
      SplitSingle(s[1..], d);
      assert s == [s[0]] + s[1..];
    }
  }

  // Joining never loses pieces, and keeps their number only if none contains the delimiter.
  lemma {:induction false} SplitJoinCount(pieces: seq<string>, d: char)
    requires pieces != []
    ensures |Split(Join(pieces, d), d)| >= |pieces|
    ensures |Split(Join(pieces, d), d)| == |pieces| <==> forall p <- pieces :: d !in p
    ensures (forall p <- pieces :: d !in p) ==> Split(Join(pieces, d), d) == pieces
  {
    var head, rest := pieces[0], pieces[1..];
    SplitSingle(head, d);
    assert pieces == [head] + rest;
    if rest != [] {
      SplitJoinCount(rest, d);
      SplitAtDelimiter(head, Join(rest, d), d);
    }
  }

  // Splitting undoes joining exactly on the non-empty lists of delimiter-free pieces.
  lemma SplitJoinIff(pieces: seq<string>, d: char)
    ensures Split(Join(pieces, d), d) == pieces <==> pieces != [] && forall p <- pieces :: d !in p
  {
    if pieces != [] { SplitJoinCount(pieces, d); }
  }

  lemma {:induction false} InJoin(pieces: seq<string>, d: char, c: char)
    ensures c in Join(pieces, d) <==> (c == d && |pieces| > 1) || exists p <- pieces :: c in p
  {
    if pieces != [] {
      InJoin(pieces[1..], d, c);
      assert pieces == [pieces[0]] + pieces[1..];
    }
  }
}
