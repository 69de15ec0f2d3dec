/** Domain names: the resolver's format check (api/v1alpha1/networkpolicy_funcs.go:17, 62-73) against
    the pattern of the resource definition (api/v1alpha1/networkpolicy_types.go:131). */
module DomainNames {
  import opened Text

  // ------------------------------------------------------------------ regular expressions

  /** The forms the two expressions use; both are anchored at either end. */
  datatype Regex =
    | Times(ok: char -> bool, least: nat, most: int)   // a class, repeated; no upper bound if `most` is negative
    | Then(first: Regex, second: Regex)
    | Maybe(body: Regex)
    | Plus(body: Regex)

  predicate Matches(r: Regex, s: string)
    decreases r, |s|
  {
    match r
    case Times(ok, least, most) =>
      least <= |s| && (most >= 0 ==> |s| <= most) && forall i :: 0 <= i < |s| ==> ok(s[i])
    case Then(first, second) =>
      exists i :: 0 <= i <= |s| && Matches(first, s[..i]) && Matches(second, s[i..])
    case Maybe(body) =>
      s == "" || Matches(body, s)
    case Plus(body) =>
      Matches(body, s) || exists i :: 0 < i <= |s| && Matches(body, s[..i]) && Matches(r, s[i..])
  }

  predicate IsLetter(c: char) { 'a' <= c <= 'z' || 'A' <= c <= 'Z' }

  predicate IsAlnum(c: char) { IsLetter(c) || '0' <= c <= '9' }

  predicate IsInner(c: char) { IsAlnum(c) || c == '-' }

  predicate IsDot(c: char) { c == '.' }

  /** The part of a label after its first character. */
  function Tail(): Regex {
    Then(Times(IsInner, 0, 61), Times(IsAlnum, 1, 1))
  }

  /** `^[a-zA-Z0-9]([a-zA-Z0-9-]{0,61}[a-zA-Z0-9])?$` */
  function LabelRegexp(): Regex {
    Then(Times(IsAlnum, 1, 1), Maybe(Tail()))
  }

  /** `^([a-zA-Z0-9]([a-zA-Z0-9-]{0,61}[a-zA-Z0-9])?\.)+[a-zA-Z]{2,}$` */
  function FqdnPattern(): Regex {
    Then(Plus(Then(LabelRegexp(), Times(IsDot, 1, 1))), Times(IsLetter, 2, -1))
  }

  // ------------------------------------------------------------------ labels

  /** A letter or a digit by its code, and one of these or a hyphen. */
  predicate LetDig(c: char) {
    var n := c as int;
    48 <= n <= 57 || 65 <= n <= 90 || 97 <= n <= 122
  }

  predicate LetDigHyp(c: char) {
    LetDig(c) || c as int == 45
  }

  /** A label by the grammar of section 2.3.1 of RFC 1035, with the length of its section 2.3.4
      and the leading digit of section 2.1 of RFC 1123. */
  predicate GoodLabel(s: string) {
    1 <= |s| <= 63 && LetDig(s[0]) && LetDig(s[|s| - 1]) && forall i :: 0 <= i < |s| ==> LetDigHyp(s[i])
  }

  /** A label but for its first character. */
  predicate GoodTail(t: string) {
    1 <= |t| <= 62 && LetDig(t[|t| - 1]) && forall i :: 0 <= i < |t| ==> LetDigHyp(t[i])
  }

  lemma ClassesAre()
    ensures forall c :: (IsAlnum(c) <==> LetDig(c)) && (IsInner(c) <==> LetDigHyp(c))
  {
  }

  lemma TailGood(t: string)
    requires Matches(Tail(), t)
    ensures GoodTail(t)
  {
    ClassesAre();
    var i :| 0 <= i <= |t| && Matches(Times(IsInner, 0, 61), t[..i]) && Matches(Times(IsAlnum, 1, 1), t[i..]);
    assert |t[i..]| == 1 && t[i..][0] == t[|t| - 1];
    assert forall k :: 0 <= k < i ==> t[..i][k] == t[k];
  }

  lemma GoodMatches(t: string)
    requires GoodTail(t)
    ensures Matches(Tail(), t)
  {
    ClassesAre();
    var n := |t| - 1;
    assert t[n..] == [t[n]];
    assert Matches(Times(IsInner, 0, 61), t[..n]);
    assert Matches(Times(IsAlnum, 1, 1), t[n..]);
  }

  lemma TailMatches(t: string)
    ensures Matches(Tail(), t) <==> GoodTail(t)
  {
    if Matches(Tail(), t) {
      TailGood(t);
    } else if GoodTail(t) {
      GoodMatches(t);
    }
  }

  /** The label expression accepts exactly the labels of the grammar. */
  lemma LabelIff(s: string)
    ensures Matches(LabelRegexp(), s) <==> GoodLabel(s)
  {
    ClassesAre();
    var one, rest := Times(IsAlnum, 1, 1), Maybe(Tail());
    if Matches(LabelRegexp(), s) {
      var i :| 0 <= i <= |s| && Matches(one, s[..i]) && Matches(rest, s[i..]);
      assert |s[..i]| == 1;
      TailMatches(s[1..]);
      assert s == [s[0]] + s[1..];
      assert IsAlnum(s[..1][0]);
    }
    if GoodLabel(s) {
      TailMatches(s[1..]);
      assert Matches(one, s[..1]) && Matches(rest, s[1..]);
    }
  }

  // ------------------------------------------------------------------ the format check

  predicate ValidName(s: string) {
    var labels := Split(s, '.');
    |labels| >= 2 && forall l :: l in labels ==> l != "" && Matches(LabelRegexp(), l)
  }

  /** `FQDN.Valid`. */
  method Valid(s: string) returns (ok: bool)
    ensures ok == ValidName(s)
  {
    var labels := Split(s, '.');
    if |labels| < 2 {
      return false;
    }
    for i := 0 to |labels|
      invariant forall k :: 0 <= k < i ==> labels[k] != "" && Matches(LabelRegexp(), labels[k])
    {
      if |labels[i]| == 0 || !Matches(LabelRegexp(), labels[i]) {
        assert labels[i] in labels;
        return false;
      }
    }
    return true;
  }

  /** The check accepts exactly the names made of two or more labels joined by dots. */
  lemma ValidIff(s: string)
    ensures ValidName(s) <==> exists labels: seq<string> :: |labels| >= 2 && Labels(labels) && s == Join(labels, '.')
  {
    var split := Split(s, '.');
    JoinSplit(s, '.');
    forall l ensures Matches(LabelRegexp(), l) <==> GoodLabel(l) {
      LabelIff(l);
    }
    if ValidName(s) {
      assert Labels(split) && s == Join(split, '.');
    }
    if labels: seq<string> :| |labels| >= 2 && Labels(labels) && s == Join(labels, '.') {
      forall l | l in labels ensures '.' !in l {
        LabelNoDot(l);
      }
      SplitJoin(labels, '.');
    }
  }

  predicate Labels(labels: seq<string>) {
    forall l :: l in labels ==> GoodLabel(l)
  }

  lemma LabelNoDot(l: string)
    requires GoodLabel(l)
    ensures '.' !in l
  {
    assert forall i :: 0 <= i < |l| ==> LetDigHyp(l[i]);
  }

  // ------------------------------------------------------------------ the pattern of the resource definition

  lemma DottedLabel(s: string) returns (head: string)
    requires Matches(Then(LabelRegexp(), Times(IsDot, 1, 1)), s)
    ensures GoodLabel(head) && s == head + "."
  {
    var i :| 0 <= i <= |s| && Matches(LabelRegexp(), s[..i]) && Matches(Times(IsDot, 1, 1), s[i..]);
    head := s[..i];
    LabelIff(head);
    assert s[i..] == ".";
    assert s == s[..i] + s[i..];
  }

  /** The repeated part is a list of labels, each followed by a dot. */
  lemma {:induction false} DottedLabels(p: string, q: string) returns (labels: seq<string>)
    requires Matches(Plus(Then(LabelRegexp(), Times(IsDot, 1, 1))), p) && '.' !in q
    ensures labels != [] && Labels(labels) && Split(p + q, '.') == labels + [q]
    decreases |p|
  {
    var part := Then(LabelRegexp(), Times(IsDot, 1, 1));
    if Matches(part, p) {
      var l := DottedLabel(p);
      LabelNoDot(l);
      SplitChunk(l, '.', q);
      SplitAtom(q, '.');
      labels := [l];
    } else {
      var i :| 0 < i <= |p| && Matches(part, p[..i]) && Matches(Plus(part), p[i..]);
      var l := DottedLabel(p[..i]);
      LabelNoDot(l);
      SplitChunk(l, '.', p[i..] + q);
      assert p + q == l + "." + (p[i..] + q);
      var rest := DottedLabels(p[i..], q);
      labels := [l] + rest;
      assert labels + [q] == [l] + (rest + [q]);
    }
  }

  /** A name the resource definition admits passes the check exactly when its last label has
      at most 63 letters. */
  lemma PatternValid(s: string)
    requires Matches(FqdnPattern(), s)
    ensures var labels := Split(s, '.'); ValidName(s) <==> |labels[|labels| - 1]| <= 63
  {
    var part := Then(LabelRegexp(), Times(IsDot, 1, 1));
    var i :| 0 <= i <= |s| && Matches(Plus(part), s[..i]) && Matches(Times(IsLetter, 2, -1), s[i..]);
    var q := s[i..];
    assert s == s[..i] + q;
    assert |q| >= 2 && forall k :: 0 <= k < |q| ==> IsLetter(q[k]);
    var init := DottedLabels(s[..i], q);
    LastDecides(s, init, q);
  }

  lemma LastDecides(s: string, init: seq<string>, q: string)
    requires init != [] && Labels(init) && Split(s, '.') == init + [q]
    requires |q| >= 2 && forall k :: 0 <= k < |q| ==> IsLetter(q[k])
    ensures ValidName(s) <==> |q| <= 63
  {
    LabelIff(q);
    forall l | l in init ensures l != "" && Matches(LabelRegexp(), l) {
      LabelIff(l);
    }
    assert q in Split(s, '.');
  }

  /** Letters only, by their codes. */
  predicate AllLetters(q: string) {
    forall k :: 0 <= k < |q| ==> 65 <= q[k] as int <= 90 || 97 <= q[k] as int <= 122
  }

  /** A name made of these labels and a last one, the top-level domain. */
  predicate PatternName(s: string, labels: seq<string>, q: string) {
    labels != [] && Labels(labels) && |q| >= 2 && AllLetters(q) && s == Join(labels + [q], '.')
  }

  lemma {:induction false} LabelsDotted(labels: seq<string>, q: string) returns (p: string)
    requires labels != [] && Labels(labels)
    ensures Matches(Plus(Then(LabelRegexp(), Times(IsDot, 1, 1))), p) && p + q == Join(labels + [q], '.')
  {
    var part := Then(LabelRegexp(), Times(IsDot, 1, 1));
    var l := labels[0];
    LabelIff(l);
    ThenMatches(LabelRegexp(), Times(IsDot, 1, 1), l, ".");
    assert (labels + [q])[1..] == labels[1..] + [q];
    if |labels| == 1 {
      p := l + ".";
      assert labels[1..] + [q] == [q];
    } else {
      var rest := LabelsDotted(labels[1..], q);
      p := l + "." + rest;
      assert p[..|l| + 1] == l + "." && p[|l| + 1..] == rest;
      assert p + q == l + "." + (rest + q);
    }
  }

  /** The pattern admits exactly the names of one or more labels and a last one of at least two
      letters, of any length, joined by dots. */
  lemma PatternIff(s: string)
    ensures Matches(FqdnPattern(), s) <==> exists labels, q :: PatternName(s, labels, q)
  {
    var plus := Plus(Then(LabelRegexp(), Times(IsDot, 1, 1)));
    if Matches(FqdnPattern(), s) {
      var i :| 0 <= i <= |s| && Matches(plus, s[..i]) && Matches(Times(IsLetter, 2, -1), s[i..]);
      var q := s[i..];
      assert s == s[..i] + q;
      assert forall k :: 0 <= k < |q| ==> IsLetter(q[k]);
      var labels := DottedLabels(s[..i], q);
      JoinSplit(s, '.');
      assert PatternName(s, labels, q);
    }
    if labels, q :| PatternName(s, labels, q) {
      var p := LabelsDotted(labels, q);
      assert Matches(Times(IsLetter, 2, -1), q);
      ThenMatches(plus, Times(IsLetter, 2, -1), p, q);
    }
  }

  function Letters(n: nat): string {
    seq(n, _ => 'a')
  }

  /** Names the resource definition admits and the check refuses: an `InvalidFormat` result can
      occur although a comment at its declaration says it never does. */
  lemma PatternWider(n: nat)
    requires n > 63
    ensures Matches(FqdnPattern(), "a." + Letters(n)) && !ValidName("a." + Letters(n))
  {
    var q := Letters(n);
    var s := "a." + q;
    var part := Then(LabelRegexp(), Times(IsDot, 1, 1));
    LabelIff("a");
    assert "a."[..1] == "a" && "a."[1..] == ".";
    assert Matches(part, "a.");
    ThenMatches(Plus(part), Times(IsLetter, 2, -1), "a.", q);
    PatternValid(s);
    SplitChunk("a", '.', q);
    SplitAtom(q, '.');
    assert s == "a" + "." + q;
  }

  lemma ThenMatches(first: Regex, second: Regex, p: string, q: string)
    requires Matches(first, p) && Matches(second, q)
    ensures Matches(Then(first, second), p + q)
  {
    assert (p + q)[..|p|] == p && (p + q)[|p|..] == q;
  }
}
