/** The blank-node identifier issuer (BlankNodeGenerator, used by the canonicaliser).
    Its implementation is not modelled; its behaviour is inferred from its uses in
    the canonicaliser. It is a value: the prefix it issues under
    and the source identifiers it has mapped, in the order they were mapped; the n-th
    of them is mapped to "_:" + prefix + n. Cloning an issuer is copying the value,
    so a clone and its original can never affect each other. */
module Issuers {
  import opened Wrappers
  import opened Sequences

  predicate IsDigit(c: char) {
    '0' <= c <= '9'
  }

  /** Decimal text of a natural number, without leading zeros. */
  function NatToString(n: nat): (s: string)
    ensures |s| >= 1
    ensures forall i :: 0 <= i < |s| ==> IsDigit(s[i])
  {
    if n < 10 then [('0' as int + n) as char]
    else NatToString(n / 10) + [('0' as int + n % 10) as char]
  }

  /** Value of a non-empty decimal text. */
  function ParseNat(s: string): nat
    requires |s| >= 1 && forall i :: 0 <= i < |s| ==> IsDigit(s[i])
  {
    assert IsDigit(s[|s| - 1]);
    var d: nat := s[|s| - 1] as int - '0' as int;
    if |s| == 1 then d else ParseNat(s[..|s| - 1]) * 10 + d
  }

  lemma {:induction false} ParseNatToString(n: nat)
    ensures ParseNat(NatToString(n)) == n
  {
    if n >= 10 {
      var s := NatToString(n);
      assert s[..|s| - 1] == NatToString(n / 10);
      ParseNatToString(n / 10);
    }
  }

  /** Different counters give different decimal texts. */
  lemma NatToStringInjective(m: nat, n: nat)
    requires NatToString(m) == NatToString(n)
    ensures m == n
  {
    ParseNatToString(m);
    ParseNatToString(n);
  }

  /** The identifier issued n-th under `prefix`. */
  function Label(prefix: string, n: nat): (s: string)
    ensures |s| > 2 + |prefix| && s[..2] == "_:" && s[2..2 + |prefix|] == prefix
  {
    "_:" + prefix + NatToString(n)
  }

  /** Two labels under one prefix are equal only for the same counter. */
  lemma LabelInjective(prefix: string, m: nat, n: nat)
    requires Label(prefix, m) == Label(prefix, n)
    ensures m == n
  {
    var k := 2 + |prefix|;
    assert Label(prefix, m)[k..] == NatToString(m);
    assert Label(prefix, n)[k..] == NatToString(n);
    NatToStringInjective(m, n);
  }

  datatype Issuer = Issuer(prefix: string, issued: seq<string>) {

    /** Every source identifier is mapped at most once. */
    predicate Valid() {
      NoDuplicates(issued)
    }

    /** GetMappedIdentifier: a lookup that assigns nothing. */
    function GetMappedIdentifier(id: string): (r: Option<string>)
      ensures r.Some? <==> id in issued
    {
      if id in issued then Some(Label(prefix, IndexOf(issued, id))) else None
    }

    /** GetMappedIdentifiers: the mapped source identifiers, in assignment order. */
    function GetMappedIdentifiers(): seq<string> {
      issued
    }

    /** GenerateBlankNodeIdentifier: the identifier already mapped to `id`, or else
        the next label in sequence, recorded for `id`. */
    function GenerateBlankNodeIdentifier(id: string): (r: (Issuer, string))
      requires Valid()
      ensures r.0.Valid() && r.0.prefix == prefix
      ensures id in issued ==> r.0 == this
      ensures id !in issued ==> r.0.issued == issued + [id] && r.1 == Label(prefix, |issued|)
      ensures r.0.GetMappedIdentifier(id) == Some(r.1)
    {
      if id in issued then
        (this, Label(prefix, IndexOf(issued, id)))
      else
        var next := Issuer(prefix, issued + [id]);
        assert IndexOf(next.issued, id) == |issued|;
        (next, Label(prefix, |issued|))
    }
  }

  /** A fresh issuer with nothing mapped. */
  function NewIssuer(prefix: string): (r: Issuer)
    ensures r.Valid() && r.issued == []
  {
    Issuer(prefix, [])
  }

  /** `later` was obtained from `earlier` by further assignments only. */
  predicate Extends(later: Issuer, earlier: Issuer) {
    later.prefix == earlier.prefix
    && |earlier.issued| <= |later.issued|
    && later.issued[..|earlier.issued|] == earlier.issued
  }

  /** An extension has mapped everything the original had. */
  lemma ExtendsIssued(later: Issuer, earlier: Issuer)
    requires Extends(later, earlier)
    ensures forall x :: x in earlier.issued ==> x in later.issued
  {
    forall x | x in earlier.issued ensures x in later.issued {
      var i :| 0 <= i < |earlier.issued| && earlier.issued[i] == x;
      assert later.issued[i] == x;
    }
  }

  lemma ExtendsTransitive(a: Issuer, b: Issuer, c: Issuer)
    requires Extends(a, b) && Extends(b, c)
    ensures Extends(a, c)
  {
    assert a.issued[..|c.issued|] == a.issued[..|b.issued|][..|c.issued|];
  }

  /** Issuing more never changes an identifier that was already mapped. */
  lemma ExtendsKeepsMappings(later: Issuer, earlier: Issuer, id: string)
    requires Extends(later, earlier) && later.Valid()
    requires id in earlier.issued
    ensures later.GetMappedIdentifier(id) == earlier.GetMappedIdentifier(id)
  {
    var i := IndexOf(earlier.issued, id);
    assert later.issued[i] == id;
    var j := IndexOf(later.issued, id);
    assert j == i;
  }

  /** Generating is an extension, and re-generating a mapped identifier changes nothing. */
  lemma GenerateExtends(issuer: Issuer, id: string)
    requires issuer.Valid()
    ensures Extends(issuer.GenerateBlankNodeIdentifier(id).0, issuer)
  {
  }

  /** A valid issuer never gives one label to two source identifiers. */
  lemma MappedInjective(issuer: Issuer, a: string, b: string)
    requires issuer.Valid()
    requires issuer.GetMappedIdentifier(a).Some?
    requires issuer.GetMappedIdentifier(a) == issuer.GetMappedIdentifier(b)
    ensures a == b
  {
    LabelInjective(issuer.prefix, IndexOf(issuer.issued, a), IndexOf(issuer.issued, b));
  }

  /** Generate identifiers for `ids` one after another. */
  function GenerateAll(issuer: Issuer, ids: seq<string>): (r: Issuer)
    requires issuer.Valid()
    ensures r.Valid() && Extends(r, issuer)
    ensures forall x :: x in r.issued <==> x in issuer.issued || x in ids
  {
    if ids == [] then issuer
    else
      var before := GenerateAll(issuer, ids[..|ids| - 1]);
      var r := before.GenerateBlankNodeIdentifier(ids[|ids| - 1]).0;
      ExtendsTransitive(r, before, issuer);
      LastSplit(ids);
      r
  }

  /** Issuing for `a + b` is issuing for `a`, then for `b`. */
  lemma {:induction false} GenerateAllConcat(issuer: Issuer, a: seq<string>, b: seq<string>)
    requires issuer.Valid()
    ensures GenerateAll(issuer, a + b) == GenerateAll(GenerateAll(issuer, a), b)
  {
    if b == [] {
      assert a + b == a;
    } else {
      var n := |b| - 1;
      GenerateAllConcat(issuer, a, b[..n]);
      ConcatLast(a, b);
    }
  }

  /** The identifiers issued by GenerateAll are the new ones of `ids`, in the
      order of their first appearance there. */
  lemma {:induction false} GenerateAllAppends(issuer: Issuer, ids: seq<string>)
    requires issuer.Valid()
    ensures GenerateAll(issuer, ids).issued == issuer.issued + FirstAppearances(issuer.issued, ids)
  {
    if ids != [] {
      GenerateAllAppends(issuer, ids[..|ids| - 1]);
      FirstAppearancesMembers(issuer.issued, ids[..|ids| - 1]);
    }
  }

  /** The elements of `ids` not in `seen`, each taken at its first appearance. */
  function FirstAppearances(seen: seq<string>, ids: seq<string>): seq<string> {
    if ids == [] then []
    else
      var before := FirstAppearances(seen, ids[..|ids| - 1]);
      var x := ids[|ids| - 1];
      before + (if x in seen || x in before then [] else [x])
  }

  lemma {:induction false} FirstAppearancesMembers(seen: seq<string>, ids: seq<string>)
    ensures forall x :: x in FirstAppearances(seen, ids) <==> x !in seen && x in ids
  {
    if ids != [] {
      FirstAppearancesMembers(seen, ids[..|ids| - 1]);
      LastSplit(ids);
    }
  }

  /** Identifier text with its first two characters ("_:") dropped, as Substring(2). */
  function StripPrefix(text: string): string
    requires |text| >= 2
  {
    text[2..]
  }

  /** The canonical labels written in the output read "c14n" followed by the counter. */
  lemma StripLabel(prefix: string, n: nat)
    ensures StripPrefix(Label(prefix, n)) == prefix + NatToString(n)
  {
  }
}
