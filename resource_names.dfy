/** Logical and physical names of resources: the resource kind enumeration,
    the case-insensitive resource identifier and the locator that names one
    occurrence of a resource inside one loader. */
module ResourceNames {
  import opened Common

  /** Kinds of resources, in the order the enumeration declares them. */
  datatype ResType = Any | Text | Animation | Mask | Campaign | Map | Font | Graphics | Video | Sound | SaveGame | Other

  /** `toupper` in the "C" locale: lower-case ASCII letters become upper case,
      every other character is left alone. */
  function ToUpper(c: char): (u: char)
    ensures 'a' <= c <= 'z' ==> u as int == c as int - 32
    ensures !('a' <= c <= 'z') ==> u == c
  {
    if 'a' <= c <= 'z' then (c as int - 32) as char else c
  }

  /** No lower-case ASCII letter occurs in `s`. */
  predicate IsUpper(s: string) {
    forall i :: 0 <= i < |s| ==> !('a' <= s[i] <= 'z')
  }

  /** `std::transform(..., toupper)` over a whole string. */
  function Upper(s: string): (r: string)
    ensures |r| == |s|
    ensures forall i :: 0 <= i < |s| ==> r[i] == ToUpper(s[i])
  {
    if s == [] then [] else [ToUpper(s[0])] + Upper(s[1..])
  }

  /** Upper-casing yields an upper-case string, and leaves one unchanged:
      it is idempotent. */
  lemma UpperIsUpper(s: string)
    ensures IsUpper(Upper(s))
    ensures IsUpper(s) <==> Upper(s) == s
    ensures Upper(Upper(s)) == Upper(s)
  {
    if IsUpper(s) {
      assert forall i :: 0 <= i < |s| ==> Upper(s)[i] == s[i];
    }
    if Upper(s) == s {
      forall i | 0 <= i < |s| ensures !('a' <= s[i] <= 'z') {
        assert Upper(s)[i] == ToUpper(s[i]);
      }
    }
    assert forall i :: 0 <= i < |s| ==> Upper(Upper(s))[i] == Upper(s)[i];
  }

  /** Upper-casing distributes over concatenation (a loader prefix followed by
      a name is upper-cased piecewise). */
  lemma {:induction false} UpperAppend(a: string, b: string)
    ensures Upper(a + b) == Upper(a) + Upper(b)
  {
    if a != [] {
      assert (a + b)[1..] == a[1..] + b;
      UpperAppend(a[1..], b);
    } else {
      assert a + b == b;
    }
  }

  /** Identifies a logical resource: its upper-cased name without extension
      and its kind. Equality is structural on both fields. */
  datatype ResourceIdentifier = ResourceIdentifier(name: string, rtype: ResType)

  /** The identifier constructor: the stored name is the character-wise upper
      case of `name`, of the same length. */
  function MakeIdentifier(name: string, rtype: ResType): (id: ResourceIdentifier)
    ensures |id.name| == |name| && id.rtype == rtype
    ensures forall i :: 0 <= i < |name| ==> id.name[i] == ToUpper(name[i])
    ensures IsUpper(id.name)
  {
    UpperIsUpper(name);
    ResourceIdentifier(Upper(name), rtype)
  }

  /** Two identifiers built from names that differ only in letter case (and
      the same kind) are equal; identifiers of different kinds never are. */
  lemma MakeIdentifierEquality(a: string, b: string, s: ResType, t: ResType)
    ensures MakeIdentifier(a, s) == MakeIdentifier(b, t) <==> Upper(a) == Upper(b) && s == t
  {
  }

  /** boost::hash_combine. */
  function HashCombine(seed: bv64, h: bv64): bv64 {
    seed ^ (h + 0x9e3779b9 + (seed << 6) + (seed >> 2))
  }

  /** hash_value of an identifier: the name's hash then the kind's hash,
      combined into seed 0. The element hashes belong to the hashing library
      and are parameters here. */
  function IdentifierHash(id: ResourceIdentifier, hashName: string -> bv64, hashType: ResType -> bv64): bv64 {
    HashCombine(HashCombine(0, hashName(id.name)), hashType(id.rtype))
  }

  /** The hash reads exactly the fields equality compares, so identifiers that
      agree on name and kind hash equally. */
  lemma IdentifierHashConsistent(a: ResourceIdentifier, b: ResourceIdentifier, hashName: string -> bv64, hashType: ResType -> bv64)
    requires a.name == b.name && a.rtype == b.rtype
    ensures IdentifierHash(a, hashName, hashType) == IdentifierHash(b, hashName, hashType)
  {
  }

  /** The address of a loader object; `None` is a null loader. */
  type LoaderId = nat

  /** One physical occurrence of a resource: the loader that owns it and the
      name under which that loader knows it. */
  datatype ResourceLocator = ResourceLocator(loader: Option<LoaderId>, resourceName: string)

  /** A locator is empty when it has no loader or no name. */
  predicate IsEmpty(loc: ResourceLocator) {
    loc.loader.None? || loc.resourceName == ""
  }

  /** The default locator: null loader, empty name. */
  function DefaultLocator(): (loc: ResourceLocator)
    ensures loc.loader.None? && loc.resourceName == ""
    ensures IsEmpty(loc)
  {
    ResourceLocator(None, "")
  }

  /** A locator with a loader and a non-empty name is not empty, and a locator
      is empty exactly when one of the two is missing. */
  lemma IsEmptyIff(loc: ResourceLocator)
    ensures IsEmpty(loc) <==> (loc.loader == None || |loc.resourceName| == 0)
  {
  }
}
