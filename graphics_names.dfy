/** The keys of the graphics cache: a resource locator narrowed to one frame
    of one group, and the kinds of glow effect an animation can carry. */
module GraphicsNames {
  import opened Common
  import opened ResourceNames

  /** The glow effects: none, yellow or blue. */
  datatype GlowAnimationType = NONE | YELLOW | BLUE

  /** The enumerator's value in the source's declaration order. */
  function GlowOrdinal(g: GlowAnimationType): (n: nat)
    ensures n < 3
  {
    match g
    case NONE => 0
    case YELLOW => 1
    case BLUE => 2
  }

  /** The three enumerators are the values 0, 1 and 2, one each: the ordinal
      identifies the effect. */
  lemma GlowOrdinalBijective(g: GlowAnimationType, h: GlowAnimationType)
    ensures GlowOrdinal(g) == GlowOrdinal(h) <==> g == h
    ensures exists k: GlowAnimationType :: GlowOrdinal(k) == 0
    ensures exists k: GlowAnimationType :: GlowOrdinal(k) == 1
    ensures exists k: GlowAnimationType :: GlowOrdinal(k) == 2
  {
    assert GlowOrdinal(NONE) == 0 && GlowOrdinal(YELLOW) == 1 && GlowOrdinal(BLUE) == 2;
  }

  /** A resource locator together with the frame and group it selects. */
  datatype GraphicsLocator = GraphicsLocator(base: ResourceLocator, frame: nat, group: nat)

  /** The default locator: an empty resource locator, frame 0, group 0. */
  function DefaultGraphicsLocator(): (g: GraphicsLocator)
    ensures g.base == DefaultLocator() && IsEmpty(g.base)
    ensures g.frame == 0 && g.group == 0
  {
    GraphicsLocator(DefaultLocator(), 0, 0)
  }

  /** The locator of a whole resource: the loader and name given, frame 0,
      group 0. */
  function MakeGraphicsLocator(loader: Option<LoaderId>, resourceName: string): (g: GraphicsLocator)
    ensures g.base.loader == loader && g.base.resourceName == resourceName
    ensures g.frame == 0 && g.group == 0
    ensures IsEmpty(g.base) <==> loader.None? || resourceName == ""
  {
    GraphicsLocator(ResourceLocator(loader, resourceName), 0, 0)
  }

  /** `operator==`: loader, name, frame and group all agree. */
  predicate SameGraphics(a: GraphicsLocator, b: GraphicsLocator) {
    a.base.loader == b.base.loader && a.base.resourceName == b.base.resourceName &&
    a.frame == b.frame && a.group == b.group
  }

  /** The comparison is the structural equality of the four fields: two keys
      that differ in frame or group alone are different keys, while two keys
      that are equal also agree as plain resource locators. */
  lemma SameGraphicsIff(a: GraphicsLocator, b: GraphicsLocator)
    ensures SameGraphics(a, b) <==> a == b
    ensures SameGraphics(a, b) ==> a.base == b.base
    ensures a.base == b.base && (a.frame != b.frame || a.group != b.group) ==> !SameGraphics(a, b)
  {
  }

  /** `hash_value`: loader, name, frame and group combined in that order into
      seed 0. The element hashes belong to the hashing library and are
      parameters here. */
  function GraphicsHash(p: GraphicsLocator, hashLoader: Option<LoaderId> -> bv64,
                        hashName: string -> bv64, hashSize: nat -> bv64): bv64
  {
    HashCombine(HashCombine(HashCombine(HashCombine(0, hashLoader(p.base.loader)),
      hashName(p.base.resourceName)), hashSize(p.frame)), hashSize(p.group))
  }

  /** The hash reads exactly the fields the comparison reads, so equal keys
      land in the same bucket. */
  lemma GraphicsHashConsistent(a: GraphicsLocator, b: GraphicsLocator, hashLoader: Option<LoaderId> -> bv64,
                               hashName: string -> bv64, hashSize: nat -> bv64)
    requires SameGraphics(a, b)
    ensures GraphicsHash(a, hashLoader, hashName, hashSize) == GraphicsHash(b, hashLoader, hashName, hashSize)
  {
  }
}
