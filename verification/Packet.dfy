/** Interests and Data as far as matching needs them. */
module Packets {
  import opened Bytes
  import opened NameComponents
  import opened Names

  /** `digest` is the implicit SHA-256 digest of the encoded packet. */
  datatype Data = Data(name: Name, digest: seq<Byte>, freshnessPeriod: int)

  datatype Interest = Interest(name: Name, canBePrefix: bool, mustBeFresh: bool)

  function FullName(d: Data): Name {
    d.name + [Component(IMPLICIT_DIGEST, d.digest)]
  }

  predicate IsImplicitDigest(c: Component) {
    c.typ == IMPLICIT_DIGEST && |c.value| == DIGEST_SIZE
  }

  /** Interest::matchesData. */
  predicate MatchesData(i: Interest, d: Data) {
    && (if |i.name| == |d.name| + 1 then IsImplicitDigest(i.name[|i.name| - 1]) && i.name == FullName(d)
        else if i.canBePrefix then i.name <= d.name
        else i.name == d.name)
    && (i.mustBeFresh ==> d.freshnessPeriod > 0)
  }

  /** Interest::matchesInterest. */
  predicate MatchesInterest(i: Interest, j: Interest) {
    i.name == j.name && i.canBePrefix == j.canBePrefix && i.mustBeFresh == j.mustBeFresh
  }

  /** No selector is left out. */
  lemma InterestsMatchExactly(i: Interest, j: Interest)
    ensures MatchesInterest(i, j) <==> i == j
  {
  }

  /** A name matches as the full name, as the name, or, with CanBePrefix, as a prefix of the name. */
  lemma MatchMeaning(i: Interest, d: Data)
    requires |d.digest| == DIGEST_SIZE
    ensures MatchesData(i, d) <==>
      && (i.name == d.name + [Component(1, d.digest)] || i.name == d.name || (i.canBePrefix && i.name <= d.name))
      && (i.mustBeFresh ==> d.freshnessPeriod > 0)
  {
  }

  lemma MatchIsUnderName(i: Interest, d: Data)
    requires MatchesData(i, d)
    ensures i.name <= FullName(d)
  {
    if i.name <= d.name {
      assert FullName(d)[..|i.name|] == d.name[..|i.name|];
    }
  }

  /** A proper prefix of a full name is a prefix of the name. */
  lemma PrefixOfFullName(prefix: Name, d: Data)
    ensures prefix <= FullName(d) <==> prefix <= d.name || prefix == FullName(d)
  {
    if |prefix| <= |d.name| {
      assert FullName(d)[..|prefix|] == d.name[..|prefix|];
    }
  }
}
