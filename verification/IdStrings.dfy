/**
 Id strings: Helpers.createIdString joins the keys of a path with '_'. They stand for paths exactly as
 long as no key contains '_'.
 */
module IdStrings {
  const SEP: char := '_'

  type Keys = seq<string>

  function Join(p: Keys): string
    requires p != []
  {
    if |p| == 1 then p[0] else p[0] + [SEP] + Join(p[1..])
  }

  /** The keys between the separators. */
  function Split(s: string): (p: Keys)
    ensures p != []
  {
    if s == "" then [""]
    else if s[0] == SEP then [""] + Split(s[1..])
    else
      var rest := Split(s[1..]);
      [[s[0]] + rest[0]] + rest[1..]
  }

  /** Helpers.isDescendantOrSame. */
  predicate IsDescendantOrSame(id: string, descendant: string) {
    id == descendant || id + [SEP] <= descendant
  }

  predicate Clean(p: Keys) {
    p != [] && forall i :: 0 <= i < |p| ==> '_' !in p[i]
  }

  // ----- joining and splitting undo each other -----

  lemma {:induction false} SplitKey(k: string)
    requires SEP !in k
    ensures Split(k) == [k]
  {
    if k != "" {
      assert SEP !in k[1..];
      SplitKey(k[1..]);
      assert k == [k[0]] + k[1..];
    }
  }

  lemma {:induction false} SplitAfterKey(k: string, s: string)
    requires SEP !in k
    ensures Split(k + [SEP] + s) == [k] + Split(s)
  {
    var t := k + [SEP] + s;
    if k == "" {
      assert t[1..] == s;
    } else {
      SplitAfterKey(k[1..], s);
      assert t[1..] == k[1..] + [SEP] + s && t[0] == k[0];
      assert k == [k[0]] + k[1..];
      assert ([k[1..]] + Split(s))[1..] == Split(s);
    }
  }

  lemma {:induction false} SplitJoin(p: Keys)
    requires Clean(p)
    ensures Split(Join(p)) == p
  {
    if |p| == 1 {
      SplitKey(p[0]);
    } else {
      SplitAfterKey(p[0], Join(p[1..]));
      SplitJoin(p[1..]);
    }
  }

  lemma {:induction false} JoinCons(k: string, p: Keys)
    requires p != []
    ensures Join([k] + p) == k + [SEP] + Join(p)
  {
    assert ([k] + p)[1..] == p;
  }

  lemma {:induction false} JoinSplit(s: string)
    ensures Join(Split(s)) == s
  {
    hide Split, Join;
    if s == "" {
      SplitNone();
      JoinOne("");
    } else {
      var c, r := s[0], s[1..];
      JoinSplit(r);
      assert s == [c] + r;
      if c == SEP {
        SplitSeparator(r);
        JoinCons("", Split(r));
      } else {
        SplitCharacter(c, r);
        JoinFirst(c, Split(r));
      }
    }
  }

  lemma {:induction false} JoinOne(k: string)
    ensures Join([k]) == k
  {
  }

  lemma {:induction false} JoinFirst(c: char, p: Keys)
    requires p != []
    ensures Join(WithFirst(c, p)) == [c] + Join(p)
  {
    hide Join;
    var k, rest := p[0], p[1..];
    if rest == [] {
      JoinOne(k);
      JoinOne([c] + k);
      assert p == [k] && WithFirst(c, p) == [[c] + k];
    } else {
      JoinCons(k, rest);
      JoinCons([c] + k, rest);
      assert p == [k] + rest;
      assert [c] + k + [SEP] + Join(rest) == [c] + (k + [SEP] + Join(rest));
    }
  }

  /** Without '_' in any key, equal id strings mean equal paths. */
  lemma {:induction false} JoinInjective(p: Keys, q: Keys)
    requires Clean(p) && Clean(q) && Join(p) == Join(q)
    ensures p == q
  {
    SplitJoin(p);
    SplitJoin(q);
  }

  lemma {:induction false} JoinConcat(p: Keys, q: Keys)
    requires p != [] && q != []
    ensures Join(p + q) == Join(p) + [SEP] + Join(q)
    decreases |p|
  {
    if |p| == 1 {
      assert p == [p[0]];
      JoinCons(p[0], q);
    } else {
      assert p + q == [p[0]] + (p[1..] + q);
      JoinCons(p[0], p[1..] + q);
      JoinConcat(p[1..], q);
    }
  }

  lemma {:induction false} SplitConcat(s: string, t: string)
    ensures Split(s + [SEP] + t) == Split(s) + Split(t)
    decreases |s|
  {
    hide Split;
    if s == "" {
      SplitNone();
      SplitSeparator(t);
      assert s + [SEP] + t == [SEP] + t;
    } else {
      var c, r := s[0], s[1..];
      SplitConcat(r, t);
      assert s == [c] + r && s + [SEP] + t == [c] + (r + [SEP] + t);
      if c == SEP {
        SplitSeparator(r);
        SplitSeparator(r + [SEP] + t);
      } else {
        SplitCharacter(c, r);
        SplitCharacter(c, r + [SEP] + t);
        PrefixFirst(c, Split(r), Split(t));
      }
    }
  }

  lemma {:induction false} SplitNone()
    ensures Split("") == [""]
  {
  }

  lemma {:induction false} SplitSeparator(s: string)
    ensures Split([SEP] + s) == [""] + Split(s)
  {
    assert ([SEP] + s)[1..] == s;
  }

  /** A key that gets one more character in front. */
  function WithFirst(c: char, p: Keys): Keys
    requires p != []
  {
    [[c] + p[0]] + p[1..]
  }

  lemma {:induction false} SplitCharacter(c: char, s: string)
    requires c != SEP
    ensures Split([c] + s) == WithFirst(c, Split(s))
  {
    assert ([c] + s)[1..] == s;
  }

  lemma {:induction false} PrefixFirst(c: char, p: Keys, q: Keys)
    requires p != []
    ensures WithFirst(c, p + q) == WithFirst(c, p) + q
  {
    assert (p + q)[1..] == p[1..] + q;
  }

  /** Without '_' in any key, the test on id strings is the test whether one path extends the other. */
  lemma {:induction false} DescendantIffPrefix(p: Keys, q: Keys)
    requires Clean(p) && Clean(q)
    ensures IsDescendantOrSame(Join(p), Join(q)) <==> p <= q
  {
    hide Split;
    SplitJoin(p);
    SplitJoin(q);
    if p < q {
      assert q == p + q[|p|..];
      JoinConcat(p, q[|p|..]);
    }
    if p == q {
    } else if Join(p) == Join(q) {
      JoinInjective(p, q);
    } else if Join(p) + [SEP] <= Join(q) {
      var rest := Join(q)[|Join(p)| + 1..];
      assert Join(q) == Join(p) + [SEP] + rest;
      SplitConcat(Join(p), rest);
      assert q == p + Split(rest);
    }
  }

  /** The keys between the separators contain none. */
  lemma {:induction false} SplitClean(s: string)
    ensures Clean(Split(s))
  {
    if s != "" {
      SplitClean(s[1..]);
      var rest := Split(s[1..]);
      assert SEP !in rest[0];
    }
  }

  /** Splitting gives the path back if and only if no key contains '_'. */
  lemma {:induction false} SplitJoinIff(p: Keys)
    requires p != []
    ensures Split(Join(p)) == p <==> Clean(p)
  {
    SplitClean(Join(p));
    if Clean(p) {
      SplitJoin(p);
    }
  }

  /** A different path without '_' has the same id string if and only if one of the keys contains '_'. */
  lemma {:induction false} SharedIffSeparator(p: Keys)
    requires p != []
    ensures (exists q :: Clean(q) && q != p && Join(q) == Join(p)) <==> exists i :: 0 <= i < |p| && '_' in p[i]
  {
    var q := Split(Join(p));
    SplitJoinIff(p);
    SplitClean(Join(p));
    JoinSplit(Join(p));
    assert Clean(q) && Join(q) == Join(p);
    if Clean(p) {
      forall r | Clean(r) && Join(r) == Join(p) ensures r == p {
        JoinInjective(r, p);
      }
    }
  }
}
