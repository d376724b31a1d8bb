/** The deployment-name check of `installApp`, frontend/src/components/Lab/Lab.jsx:
    the regular expression, the DNS-subdomain grammar it stands for, and a one-pass automaton. */
module DpName {
  import opened Text

  // The three character classes of the expression: [a-z0-9], [-a-z0-9] and a literal dot.
  datatype CharClass = Alnum | AlnumDash | Dot

  predicate In(c: char, cls: CharClass) {
    match cls
    case Alnum => 'a' <= c <= 'z' || '0' <= c <= '9'
    case AlnumDash => c == '-' || 'a' <= c <= 'z' || '0' <= c <= '9'
    case Dot => c == '.'
  }

  datatype Re = Class(cls: CharClass) | Cat(left: Re, right: Re) | Opt(body: Re) | Star(body: Re)

  // The words of an expression (anchored at both ends).
  ghost predicate Matches(r: Re, s: string)
    decreases r, |s|
  {
    match r
    case Class(cls) => |s| == 1 && In(s[0], cls)
    case Cat(a, b) => exists i | 0 <= i <= |s| :: Matches(a, s[..i]) && Matches(b, s[i..])
    case Opt(a) => s == [] || Matches(a, s)
    case Star(a) => s == [] || exists i | 0 < i <= |s| :: Matches(a, s[..i]) && Matches(r, s[i..])
  }

  // [a-z0-9]([-a-z0-9]*[a-z0-9])?
  const LabelRe := Cat(Class(Alnum), Opt(Cat(Star(Class(AlnumDash)), Class(Alnum))))
  // (\.[a-z0-9]([-a-z0-9]*[a-z0-9])?)*
  const MoreLabelsRe := Star(Cat(Class(Dot), LabelRe))
  const DpNameRe := Cat(LabelRe, MoreLabelsRe)

  // A label, in terms of the expression's own classes.
  predicate IsLabel(p: string) {
    p != [] && In(p[0], Alnum) && In(p[|p| - 1], Alnum) && forall c <- p :: In(c, AlnumDash)
  }

  predicate IsLabelList(s: string) {
    forall p <- Split(s, '.') :: IsLabel(p)
  }

  // ---------- The expression means the grammar ----------

  lemma {:induction false} StarOfClass(cls: CharClass, s: string)
    ensures Matches(Star(Class(cls)), s) <==> forall c <- s :: In(c, cls)
  {
    if s != [] {
      StarOfClass(cls, s[1..]);
      assert s == [s[0]] + s[1..];
      assert s[..1] == [s[0]];
    }
  }

  lemma LabelMeaning(s: string)
    ensures Matches(LabelRe, s) <==> IsLabel(s)
  {
    var tail := Cat(Star(Class(AlnumDash)), Class(Alnum));
    if s != [] {
      var t := s[1..];
      assert Matches(LabelRe, s) <==> In(s[0], Alnum) && Matches(Opt(tail), t) by {
        assert s[..1] == [s[0]];
      }
      if t != [] {
        var n := |t| - 1;
        assert t[n..] == [t[n]];
        StarOfClass(AlnumDash, t[..n]);
        assert Matches(tail, t) <==> In(t[n], Alnum) && forall c <- t[..n] :: In(c, AlnumDash);
        assert s == [s[0]] + t[..n] + [t[n]];
      }
    }
  }

  lemma {:induction false} SplitHead(s: string, d: char)
    ensures
      var pieces := Split(s, d);
      && d !in pieces[0]
      && if |pieces| == 1 then s == pieces[0]
         else |pieces[0]| < |s| && s == pieces[0] + [d] + s[|pieces[0]| + 1..]
              && Split(s[|pieces[0]| + 1..], d) == pieces[1..]
  {
    if s != [] && s[0] != d {
      SplitHead(s[1..], d);
      var rest := Split(s[1..], d);
      assert s == [s[0]] + s[1..];
      if |rest| > 1 { assert s[|rest[0]| + 2..] == s[1..][|rest[0]| + 1..]; }
    }
  }

  lemma DotLabelMeaning(s: string)
    ensures Matches(Cat(Class(Dot), LabelRe), s) <==> s != [] && s[0] == '.' && IsLabel(s[1..])
  {
    if s != [] {
      LabelMeaning(s[1..]);
      assert s[..1] == [s[0]];
    }
  }

  // Nothing, or a dot and a subdomain.
  predicate IsSuffix(s: string) {
    s == [] || (s[0] == '.' && IsLabelList(s[1..]))
  }

  lemma SubdomainFromParts(s: string, i: nat)
    requires i <= |s| && IsLabel(s[..i]) && IsSuffix(s[i..])
    ensures IsLabelList(s)
  {
    SplitSingle(s[..i], '.');
    if i < |s| {
      assert s[i..][1..] == s[i + 1..];
      assert s == s[..i] + ['.'] + s[i + 1..];
      SplitAtDelimiter(s[..i], s[i + 1..], '.');
    } else {
      assert s == s[..i];
    }
  }

  lemma SubdomainParts(s: string) returns (i: nat)
    requires IsLabelList(s)
    ensures 0 < i <= |s| && IsLabel(s[..i]) && IsSuffix(s[i..])
  {
    SplitHead(s, '.');
    var pieces := Split(s, '.');
    i := |pieces[0]|;
    assert s[..i] == pieces[0] && pieces[0] in pieces;
    assert forall p <- pieces[1..] :: p in pieces;
    if i < |s| { assert s[i..][1..] == s[i + 1..]; }
  }

  lemma {:induction false} MoreLabelsMeaning(s: string)
    ensures Matches(MoreLabelsRe, s) <==> IsSuffix(s)
    decreases |s|
  {
    if s == [] { return; }
    forall i | 0 < i <= |s| ensures Matches(MoreLabelsRe, s[i..]) <==> IsSuffix(s[i..]) {
      MoreLabelsMeaning(s[i..]);
    }
    if i :| 0 < i <= |s| && Matches(MoreLabelsRe.body, s[..i]) && IsSuffix(s[i..]) {
      SuffixFromParts(s, i);
    }
    if IsSuffix(s) {
      var i := SuffixParts(s);
      assert Matches(MoreLabelsRe.body, s[..i]) && Matches(MoreLabelsRe, s[i..]);
    }
  }

  lemma SuffixFromParts(s: string, i: nat)
    requires 0 < i <= |s| && Matches(MoreLabelsRe.body, s[..i]) && IsSuffix(s[i..])
    ensures IsSuffix(s)
  {
    DotLabelMeaning(s[..i]);
    assert s[..i][1..] == s[1..][..i - 1] && s[i..] == s[1..][i - 1..];
    SubdomainFromParts(s[1..], i - 1);
  }

  lemma SuffixParts(s: string) returns (i: nat)
    requires s != [] && IsSuffix(s)
    ensures 0 < i <= |s| && Matches(MoreLabelsRe.body, s[..i]) && IsSuffix(s[i..])
  {
    var n := SubdomainParts(s[1..]);
    i := n + 1;
    assert s[..i][1..] == s[1..][..n] && s[i..] == s[1..][n..];
    DotLabelMeaning(s[..i]);
  }

  lemma RegexMeansLabelList(s: string)
    ensures Matches(DpNameRe, s) <==> IsLabelList(s)
  {
    if Matches(DpNameRe, s) {
      var i :| 0 <= i <= |s| && Matches(LabelRe, s[..i]) && Matches(MoreLabelsRe, s[i..]);
      LabelMeaning(s[..i]);
      MoreLabelsMeaning(s[i..]);
      SubdomainFromParts(s, i);
    }
    if IsLabelList(s) {
      var i := SubdomainParts(s);
      LabelMeaning(s[..i]);
      MoreLabelsMeaning(s[i..]);
    }
  }

  // ---------- The grammar in its own words ----------

  predicate IsLetterOrDigit(c: char) { c in "abcdefghijklmnopqrstuvwxyz0123456789" }

  // A DNS label without its length limit (RFC 1123, section 2.1): letters, digits and hyphens, beginning
  // and ending with a letter or digit.
  predicate IsDnsLabel(p: string) {
    p != [] && IsLetterOrDigit(p[0]) && IsLetterOrDigit(p[|p| - 1]) && forall c <- p :: c == '-' || IsLetterOrDigit(c)
  }

  predicate IsDnsSubdomain(s: string) {
    forall p <- Split(s, '.') :: IsDnsLabel(p)
  }

  lemma ClassesMeaning(c: char)
    ensures In(c, Alnum) <==> IsLetterOrDigit(c)
    ensures In(c, AlnumDash) <==> c == '-' || IsLetterOrDigit(c)
  {
    var all := "abcdefghijklmnopqrstuvwxyz0123456789";
    if In(c, Alnum) {
      var k := if 'a' <= c <= 'z' then (c as int) - ('a' as int) else 26 + (c as int) - ('0' as int);
      assert all[k] == c;
    }
  }

  lemma LabelIsDnsLabel(p: string)
    ensures IsLabel(p) <==> IsDnsLabel(p)
  {
    forall c ensures In(c, Alnum) <==> IsLetterOrDigit(c)
             ensures In(c, AlnumDash) <==> c == '-' || IsLetterOrDigit(c) {
      ClassesMeaning(c);
    }
  }

  lemma RegexMeansDnsSubdomain(s: string)
    ensures Matches(DpNameRe, s) <==> IsDnsSubdomain(s)
  {
    RegexMeansLabelList(s);
    forall p <- Split(s, '.') ensures IsLabel(p) <==> IsDnsLabel(p) { LabelIsDnsLabel(p); }
  }

  // ---------- A one-pass automaton for the same language ----------

  datatype State = AtStart | AfterAlnum | AfterDash | Dead

  function Delta(q: State, c: char): State {
    if q == Dead then Dead
    else if In(c, Alnum) then AfterAlnum
    else if c == '-' && q != AtStart then AfterDash
    else if c == '.' && q == AfterAlnum then AtStart
    else Dead
  }

  predicate Accepts(q: State, s: string)
    decreases |s|
  {
    if s == [] then q == AfterAlnum else Accepts(Delta(q, s[0]), s[1..])
  }

  // The rest of a label whose first character has been read.
  predicate IsTail(p: string) {
    (p == [] || In(p[|p| - 1], Alnum)) && forall c <- p :: In(c, AlnumDash)
  }

  lemma TailCons(c: char, p: string)
    ensures IsTail([c] + p) <==> In(c, AlnumDash) && IsTail(p) && (p == [] ==> In(c, Alnum))
    ensures IsLabel([c] + p) <==> In(c, Alnum) && IsTail(p)
  {
    assert p != [] ==> ([c] + p)[|p|] == p[|p| - 1];
  }

  lemma {:induction false} AutomatonMeaning(q: State, s: string)
    ensures
      var pieces := Split(s, '.');
      var more := forall p <- pieces[1..] :: IsLabel(p);
      Accepts(q, s) <==>
      match q
      case AtStart => IsLabelList(s)
      case AfterAlnum => IsTail(pieces[0]) && more
      case AfterDash => pieces[0] != [] && IsTail(pieces[0]) && more
      case Dead => false
    decreases |s|
  {
    var pieces := Split(s, '.');
    assert pieces == [pieces[0]] + pieces[1..];
    assert IsLabelList(s) <==> IsLabel(pieces[0]) && forall p <- pieces[1..] :: IsLabel(p);
    if s != [] {
      AutomatonMeaning(Delta(q, s[0]), s[1..]);
      var rest := Split(s[1..], '.');
      assert rest == [rest[0]] + rest[1..];
      assert IsLabelList(s[1..]) <==> IsLabel(rest[0]) && forall p <- rest[1..] :: IsLabel(p);
      if s[0] == '.' {
        assert pieces[1..] == rest;
      } else {
        TailCons(s[0], rest[0]);
        assert pieces[0] == [s[0]] + rest[0] && pieces[1..] == rest[1..];
      }
    }
  }

  lemma AutomatonDecidesRegex(s: string)
    ensures Accepts(AtStart, s) <==> Matches(DpNameRe, s)
  {
    AutomatonMeaning(AtStart, s);
    RegexMeansLabelList(s);
  }
}
