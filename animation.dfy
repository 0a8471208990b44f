/** Animations built from a DEF container: `ImageBasedAnimation` holds one
    sprite per frame of the groups it loaded, and `CAnimation` plays one
    group of such an animation. */
module Animations {
  import opened Common
  import opened DefFormat
  import opened DefFiles
  import opened GraphicsNames

  /** `loadedGroup` before anything is loaded. */
  const NO_GROUP_LOADED: int := -2
  /** `loadedGroup` once every group is loaded. */
  const ALL_GROUPS_LOADED: int := -1
  /** The default group argument of `createAnimation`, `size_t(-1)`: load
      every group. */
  const ALL_GROUPS: nat := TWO_64 - 1

  /** The sprite the container yields for one frame of one group. How it is
      decoded belongs to the sprite factory, which is not part of this model;
      the sprite is identified by the frame and group it was made from. */
  datatype Sprite = Sprite(frame: nat, group: nat)

  /** The sprites of frames 0 .. count-1 of `group`, keyed by frame. */
  function FramesOf(group: nat, count: nat): (m: map<nat, Sprite>)
  {
    map f | 0 <= f < count :: Sprite(f, group)
  }

  /** What loading every group leaves in `images`: for each group with at
      least one frame, its frames. A group listed with no frames is never
      indexed, so it gets no inner map at all. */
  function AllSprites(entries: map<nat, nat>): (m: map<nat, map<nat, Sprite>>)
  {
    SpritesOf(entries, entries.Keys)
  }

  /** The sprites of the groups in `done` that have at least one frame. */
  function SpritesOf(entries: map<nat, nat>, done: set<nat>): (m: map<nat, map<nat, Sprite>>)
  {
    map g | g in entries && g in done && entries[g] > 0 :: FramesOf(g, entries[g])
  }

  /** One more group done adds its frames, when it has any. */
  lemma SpritesOfStep(entries: map<nat, nat>, done: set<nat>, g: nat)
    requires g in entries && g !in done
    ensures SpritesOf(entries, done + {g}) ==
              if entries[g] > 0 then SpritesOf(entries, done)[g := FramesOf(g, entries[g])] else SpritesOf(entries, done)
  {
  }

  /** What loading only `group` leaves in `images`: that group's frames when
      it is listed with at least one frame, nothing otherwise. */
  function GroupSprites(entries: map<nat, nat>, group: nat): (m: map<nat, map<nat, Sprite>>)
  {
    if group in entries && entries[group] > 0 then map[group := FramesOf(group, entries[group])] else map[]
  }

  /** The sprite stored for (`frame`, `group`), if any. */
  function SpriteAt(images: map<nat, map<nat, Sprite>>, frame: nat, group: nat): (s: Option<Sprite>)
    ensures s.Some? <==> group in images && frame in images[group]
    ensures s.Some? ==> s.value == images[group][frame]
  {
    if group in images && frame in images[group] then Some(images[group][frame]) else None
  }

  /** After loading every group there is exactly one sprite for each (g, f)
      with f below g's frame count, and it is the sprite of that frame. */
  lemma AllSpritesExactly(entries: map<nat, nat>, frame: nat, group: nat)
    ensures SpriteAt(AllSprites(entries), frame, group) ==
              if group in entries && frame < entries[group] then Some(Sprite(frame, group)) else None
  {
    if group in entries && frame < entries[group] {
      assert frame in FramesOf(group, entries[group]);
    }
  }

  /** After loading one group the only sprites are that group's, one per
      frame below its count; a group missing from the container yields none. */
  lemma GroupSpritesExactly(entries: map<nat, nat>, loaded: nat, frame: nat, group: nat)
    ensures SpriteAt(GroupSprites(entries, loaded), frame, group) ==
              if group == loaded && group in entries && frame < entries[group] then Some(Sprite(frame, group)) else None
  {
    if group == loaded && group in entries && frame < entries[group] {
      assert frame in FramesOf(group, entries[group]);
    }
  }

  /** Loading one group yields, for that group, what loading everything
      yields: the one-group state is the whole state restricted to the group. */
  lemma GroupIsRestriction(entries: map<nat, nat>, group: nat)
    ensures GroupSprites(entries, group) == map g | g in AllSprites(entries) && g == group :: AllSprites(entries)[g]
  {
  }

  class ImageBasedAnimation {
    /** Frame count per group of the container last loaded. */
    var entries: map<nat, nat>
    var locator: GraphicsLocator
    /** NO_GROUP_LOADED or ALL_GROUPS_LOADED or a group number. */
    var loadedGroup: int
    /** images[group][frame]. */
    var images: map<nat, map<nat, Sprite>>

    /** A fresh animation: nothing loaded. */
    constructor ()
      ensures loadedGroup == NO_GROUP_LOADED
      ensures entries == map[] && images == map[] && locator == DefaultGraphicsLocator()
    {
      entries, images := map[], map[];
      locator := DefaultGraphicsLocator();
      loadedGroup := NO_GROUP_LOADED;
    }

    /** `getEntries`: the stored map, unchanged. */
    method GetEntries() returns (r: map<nat, nat>)
      ensures r == entries
    {
      r := entries;
    }

    /** `load(defFile)`: the sprites are cleared, the frame counts are taken
        from the container, and every frame of every group gets its sprite. */
    method LoadAll(def: DefFile)
      modifies this
      ensures entries == Entries(def.offset) && images == AllSprites(entries)
      ensures locator == old(locator) && loadedGroup == old(loadedGroup)
    {
      images := map[];
      entries := def.GetEntries();
      var todo := entries.Keys;
      while todo != {}
        invariant todo <= entries.Keys
        invariant entries == Entries(def.offset) && locator == old(locator) && loadedGroup == old(loadedGroup)
        invariant images == SpritesOf(entries, entries.Keys - todo)
        decreases todo
      {
        var g :| g in todo;
        SpritesOfStep(entries, entries.Keys - todo, g);
        assert entries.Keys - (todo - {g}) == (entries.Keys - todo) + {g};
        LoadFrames(g, entries[g]);
        todo := todo - {g};
      }
      assert entries.Keys - todo == entries.Keys;
    }

    /** `load(defFile, group)`: the sprites are cleared, the frame counts are
        taken from the container, and only `group` gets its sprites, when the
        container has it. */
    method LoadGroup(def: DefFile, group: nat)
      modifies this
      ensures entries == Entries(def.offset) && images == GroupSprites(entries, group)
      ensures locator == old(locator) && loadedGroup == old(loadedGroup)
    {
      images := map[];
      entries := def.GetEntries();
      if group in entries {
        LoadFrames(group, entries[group]);
      }
    }

    /** The loop over the frames of one group: `images[group][frame]` for
        each frame below `count`, the inner map being created on first use. */
    method LoadFrames(group: nat, count: nat)
      requires group !in images
      modifies this
      ensures entries == old(entries) && locator == old(locator) && loadedGroup == old(loadedGroup)
      ensures images == if count > 0 then old(images)[group := FramesOf(group, count)] else old(images)
    {
      var frame := 0;
      while frame < count
        invariant frame <= count
        invariant entries == old(entries) && locator == old(locator) && loadedGroup == old(loadedGroup)
        invariant images == if frame > 0 then old(images)[group := FramesOf(group, frame)] else old(images)
      {
        var inner := if group in images then images[group] else map[];
        assert inner == FramesOf(group, frame);
        assert inner[frame := Sprite(frame, group)] == FramesOf(group, frame + 1);
        images := images[group := inner[frame := Sprite(frame, group)]];
        frame := frame + 1;
      }
    }

    /** `draw`: the sprite drawn for (`frame`, `group`); nothing is drawn
        when either is missing from `images`. */
    method Draw(frame: nat, group: nat) returns (drawn: Option<Sprite>)
      ensures drawn == SpriteAt(images, frame, group)
    {
      if group in images {
        if frame in images[group] {
          drawn := Some(images[group][frame]);
          return;
        }
      }
      drawn := None;
    }
  }

  /** `createAnimation`: a new animation of every group for the default
      group argument, otherwise of the given group alone. */
  method CreateAnimation(def: DefFile, group: nat) returns (anim: ImageBasedAnimation)
    ensures fresh(anim)
    ensures anim.entries == Entries(def.offset) && anim.loadedGroup == NO_GROUP_LOADED
    ensures group == ALL_GROUPS ==> anim.images == AllSprites(anim.entries)
    ensures group != ALL_GROUPS ==> anim.images == GroupSprites(anim.entries, group)
  {
    anim := new ImageBasedAnimation();
    if group == ALL_GROUPS {
      anim.LoadAll(def);
    } else {
      anim.LoadGroup(def, group);
    }
  }

  /** A player of one group of an animation. */
  class CAnimation {
    var anim: ImageBasedAnimation
    var currentGroup: nat
    var currentFrame: nat
    var frameCount: nat
    var currentTime: real
    var repeat: bool

    /** `CAnimation(animation)`: group 0, frame 0, then `setGroup(0)`. */
    constructor (animation: ImageBasedAnimation)
      ensures anim == animation && currentGroup == 0 && currentFrame == 0 && !repeat
      ensures 0 in animation.entries ==> frameCount == animation.entries[0] && currentTime == 0.0
    {
      anim := animation;
      currentGroup, currentFrame := 0, 0;
      frameCount, currentTime, repeat := 0, 0.0, false;
      new;
      SetGroup(0, false);
    }

    /** `CAnimation(identifier, group)`, given the animation the resource
        handler returns for that group: starts at frame 0 of `group`. */
    constructor OfGroup(animation: ImageBasedAnimation, group: nat)
      ensures anim == animation && currentGroup == group && currentFrame == 0 && !repeat
      ensures group in animation.entries ==> frameCount == animation.entries[group] && currentTime == 0.0
    {
      anim := animation;
      currentGroup, currentFrame := group, 0;
      frameCount, currentTime, repeat := 0, 0.0, false;
      new;
      SetGroup(group, false);
    }

    /** `setGroup`: `repeat` is always stored; when the animation has the
        group, the frame count becomes its count and the clock restarts,
        otherwise both are kept. The current group is not changed. */
    method SetGroup(group: nat, repeat: bool)
      modifies this
      ensures this.repeat == repeat && anim == old(anim)
      ensures currentGroup == old(currentGroup) && currentFrame == old(currentFrame)
      ensures group in anim.entries ==> frameCount == anim.entries[group] && currentTime == 0.0
      ensures group !in anim.entries ==> frameCount == old(frameCount) && currentTime == old(currentTime)
    {
      this.repeat := repeat;
      var entries := anim.GetEntries();
      if group in entries {
        frameCount := entries[group];
        currentTime := 0.0;
      }
    }
  }
}
