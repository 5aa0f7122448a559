/**
 Length-prefixed evidence and the clone-group identity
 (crates/analysis-dry/src/lib.rs, `encoded_components`, `stable_clone_group_id`).
 Strings are their UTF-8 bytes; the final hash is not modelled, only the text that is hashed.
 */
module Evidence {
  import opened Basics
  import opened Sorting

  type Text = seq<Byte>

  const COLON: Byte := 58

  /** Decimal digits, most significant first. */
  function Decimal(n: nat): Text {
    if n < 10 then [48 + n] else Decimal(n / 10) + [48 + n % 10]
  }

  function Encoded(values: seq<Text>): Text {
    if values == [] then [] else Decimal(|values[0]|) + [COLON] + values[0] + Encoded(values[1..])
  }

  method EncodedComponents(values: seq<Text>) returns (encoded: Text)
    ensures encoded == Encoded(values)
  {
    encoded := [];
    for i := 0 to |values|
      invariant encoded + Encoded(values[i..]) == Encoded(values)
    {
      assert values[i..][1..] == values[i + 1..];
      encoded := encoded + Decimal(|values[i]|);
      encoded := encoded + [COLON];
      encoded := encoded + values[i];
    }
  }

  // ----- injectivity -----

  lemma {:induction false} DecimalDigits(n: nat)
    ensures Decimal(n) != []
    ensures forall d :: d in Decimal(n) ==> 48 <= d <= 57
  {
    if n >= 10 {
      DecimalDigits(n / 10);
    }
  }

  lemma {:induction false} DecimalInjective(m: nat, n: nat)
    requires Decimal(m) == Decimal(n)
    ensures m == n
  {
    DecimalDigits(m / 10);
    DecimalDigits(n / 10);
    assert Decimal(m)[|Decimal(m)| - 1] == Decimal(n)[|Decimal(n)| - 1];
    if m >= 10 && n >= 10 {
      var p, q := Decimal(m), Decimal(n);
      assert p[..|p| - 1] == Decimal(m / 10) && q[..|q| - 1] == Decimal(n / 10);
      DecimalInjective(m / 10, n / 10);
    }
  }

  /** Text up to the first colon is determined. */
  lemma SplitAtColon(a: Text, b: Text, rest: Text, rest': Text)
    requires COLON !in a && COLON !in b
    requires a + [COLON] + rest == b + [COLON] + rest'
    ensures a == b && rest == rest'
  {
    var s := a + [COLON] + rest;
    assert s[|a|] == COLON && s[|b|] == COLON;
    forall i | 0 <= i < |a|
      ensures s[i] != COLON
    {
      assert s[i] == a[i] && a[i] in a;
    }
    forall i | 0 <= i < |b|
      ensures s[i] != COLON
    {
      assert s[i] == b[i] && b[i] in b;
    }
    assert |a| == |b|;
    assert a == s[..|a|] && b == s[..|b|];
    assert rest == s[|a| + 1..] && rest' == s[|b| + 1..];
  }

  lemma EncodedEmpty(values: seq<Text>)
    ensures Encoded(values) == [] <==> values == []
  {
  }

  /** The encoding is injective on lists of strings. */
  lemma {:induction false} EncodedInjective(a: seq<Text>, b: seq<Text>)
    requires Encoded(a) == Encoded(b)
    ensures a == b
  {
    EncodedEmpty(a);
    EncodedEmpty(b);
    if a != [] {
      DecimalDigits(|a[0]|);
      DecimalDigits(|b[0]|);
      var restA, restB := a[0] + Encoded(a[1..]), b[0] + Encoded(b[1..]);
      assert Encoded(a) == Decimal(|a[0]|) + [COLON] + restA;
      assert Encoded(b) == Decimal(|b[0]|) + [COLON] + restB;
      SplitAtColon(Decimal(|a[0]|), Decimal(|b[0]|), restA, restB);
      DecimalInjective(|a[0]|, |b[0]|);
      assert a[0] == restA[..|a[0]|] && b[0] == restB[..|b[0]|];
      assert Encoded(a[1..]) == restA[|a[0]|..] && Encoded(b[1..]) == restB[|b[0]|..];
      EncodedInjective(a[1..], b[1..]);
      assert a == [a[0]] + a[1..] && b == [b[0]] + b[1..];
    }
  }

  // ----- clone-group identity -----

  datatype CloneIdentity = CloneIdentity(path: Text, symbol: Text, evidence: Text)

  predicate CloneIdentityLeq(a: CloneIdentity, b: CloneIdentity) {
    if a.path != b.path then
      LexLeq(a.path, b.path)
    else if a.symbol != b.symbol then
      LexLeq(a.symbol, b.symbol)
    else
      LexLeq(a.evidence, b.evidence)
  }

  lemma CloneIdentityOrder()
    ensures TotalPreorder(CloneIdentityLeq) && Antisymmetric(CloneIdentityLeq)
  {
    forall x, y
      ensures CloneIdentityLeq(x, y) || CloneIdentityLeq(y, x)
      ensures CloneIdentityLeq(x, y) && CloneIdentityLeq(y, x) ==> x == y
    {
      TextOrder(x.path, y.path);
      TextOrder(x.symbol, y.symbol);
      TextOrder(x.evidence, y.evidence);
    }
    forall x, y, z | CloneIdentityLeq(x, y) && CloneIdentityLeq(y, z)
      ensures CloneIdentityLeq(x, z)
    {
      IdentityTransitive(x, y, z);
    }
  }

  lemma TextOrder(a: Text, b: Text)
    ensures LexLeq(a, b) || LexLeq(b, a)
    ensures LexLeq(a, b) && LexLeq(b, a) ==> a == b
  {
    LexTotal(a, b);
    if LexLeq(a, b) && LexLeq(b, a) {
      LexAntisymmetric(a, b);
    }
  }

  lemma TextTransitive(a: Text, b: Text, c: Text)
    ensures LexLeq(a, b) && LexLeq(b, c) ==> LexLeq(a, c)
  {
    if LexLeq(a, b) && LexLeq(b, c) {
      LexTransitive(a, b, c);
    }
  }

  lemma IdentityTransitive(x: CloneIdentity, y: CloneIdentity, z: CloneIdentity)
    requires CloneIdentityLeq(x, y) && CloneIdentityLeq(y, z)
    ensures CloneIdentityLeq(x, z)
  {
    TextTransitive(x.path, y.path, z.path);
    TextTransitive(x.symbol, y.symbol, z.symbol);
    TextTransitive(x.evidence, y.evidence, z.evidence);
    TextOrder(x.path, y.path);
    TextOrder(x.symbol, y.symbol);
  }

  function Paths(ids: seq<CloneIdentity>): seq<Text> { seq(|ids|, i requires 0 <= i < |ids| => ids[i].path) }
  function Symbols(ids: seq<CloneIdentity>): seq<Text> { seq(|ids|, i requires 0 <= i < |ids| => ids[i].symbol) }
  function Evidences(ids: seq<CloneIdentity>): seq<Text> { seq(|ids|, i requires 0 <= i < |ids| => ids[i].evidence) }

  /** The three texts passed to the identity hash. */
  datatype IdInput = IdInput(paths: Text, symbols: Text, evidence: Text)

  function CloneGroupIdInput(identities: seq<CloneIdentity>): IdInput {
    var ids := Sort(identities, CloneIdentityLeq);
    IdInput(Encoded(Paths(ids)), Encoded(Symbols(ids)), Encoded(Evidences(ids)))
  }

  /** The identity input is the same exactly for permutations of the same occurrences. */
  lemma CloneGroupIdIffSameOccurrences(a: seq<CloneIdentity>, b: seq<CloneIdentity>)
    ensures CloneGroupIdInput(a) == CloneGroupIdInput(b) <==> multiset(a) == multiset(b)
  {
    CloneIdentityOrder();
    if multiset(a) == multiset(b) {
      SortPermutation(a, b, CloneIdentityLeq);
    }
    if CloneGroupIdInput(a) == CloneGroupIdInput(b) {
      var x, y := Sort(a, CloneIdentityLeq), Sort(b, CloneIdentityLeq);
      EncodedInjective(Paths(x), Paths(y));
      EncodedInjective(Symbols(x), Symbols(y));
      EncodedInjective(Evidences(x), Evidences(y));
      assert |x| == |Paths(x)| == |Paths(y)| == |y|;
      forall i | 0 <= i < |x|
        ensures x[i] == y[i]
      {
        assert Paths(x)[i] == Paths(y)[i] && Symbols(x)[i] == Symbols(y)[i] && Evidences(x)[i] == Evidences(y)[i];
      }
      assert x == y;
    }
  }
}
