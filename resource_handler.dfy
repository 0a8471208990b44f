/** The client's resource handler: images loaded through the file system
    handler, cached by locator as weak references. */
module ResourceHandlers {
  import opened Common
  import opened ResourceNames
  import opened MemoryStreams
  import opened ResourceMaps
  import opened FileSystemHandlers

  /** An image made from a stream and a file extension. How the stream is
      decoded belongs to the image factory, which is not part of this model;
      the image keeps what it was made from. */
  class Image {
    const data: MemoryStream?
    const fileExt: string

    constructor (data: MemoryStream?, fileExt: string)
      ensures this.data == data && this.fileExt == fileExt
    {
      this.data := data;
      this.fileExt := fileExt;
    }
  }

  /** What `getImage` does for an identifier, given the table and the cache:
      give up, hand out the cached image, or load the chosen locator. */
  datatype Step<T> = NotFound | Cached(obj: T) | Load(loc: ResourceLocator)

  /** The decision of `getImage`: nothing for an unregistered identifier;
      otherwise the locator `getResource` would choose (the last one, or the
      first when `fromBegin`), served from the cache when its weak reference
      is live and loaded when it is absent or expired. */
  function Decide<T>(images: map<ResourceLocator, WeakSlot<T>>, resources: ResourcesMap,
                     id: ResourceIdentifier, fromBegin: bool): (s: Step<T>)
    requires forall k :: k in resources ==> resources[k] != []
    ensures s.NotFound? <==> id !in resources
    ensures id in resources ==> var loc := Lookup(resources, id, fromBegin).value;
              (s.Cached? <==> SlotOf(images, loc).Live?) &&
              (s.Cached? ==> s.obj == SlotOf(images, loc).obj) &&
              (s.Load? ==> s.loc == loc)
  {
    match Lookup(resources, id, fromBegin)
    case None => NotFound
    case Some(loc) =>
      if loc in images && images[loc].Live? then Cached(images[loc].obj) else Load(loc)
  }

  /** The cache after a load, as written: `loadImage` hands the image out
      without storing a weak reference to it. */
  function RecordAsWritten<T>(images: map<ResourceLocator, WeakSlot<T>>, loc: ResourceLocator, obj: T): (r: map<ResourceLocator, WeakSlot<T>>)
  {
    images
  }

  /** Counterexample for the image cache as written: after an image has been
      loaded for a locator, the next request for the same identifier loads it
      again, however long the first image stays alive; with the load
      recorded, the next request is served the image just loaded. */
  lemma RecordAsWrittenReloads<T>(images: map<ResourceLocator, WeakSlot<T>>, resources: ResourcesMap,
                                  id: ResourceIdentifier, fromBegin: bool, obj: T)
    requires forall k :: k in resources ==> resources[k] != []
    requires Decide(images, resources, id, fromBegin).Load?
    ensures var loc := Decide(images, resources, id, fromBegin).loc;
            Decide(RecordAsWritten(images, loc, obj), resources, id, fromBegin).Load? &&
            Decide(CacheInsert(images, loc, Live(obj)), resources, id, fromBegin) == Cached(obj)
  {
  }

  /** Recording a load only concerns the loaded locator: every request that
      chooses another locator decides as before. */
  lemma RecordKeepsOthers<T>(images: map<ResourceLocator, WeakSlot<T>>, resources: ResourcesMap,
                             id: ResourceIdentifier, fromBegin: bool, loc: ResourceLocator, obj: T)
    requires forall k :: k in resources ==> resources[k] != []
    requires id in resources && Lookup(resources, id, fromBegin).value != loc
    ensures Decide(CacheInsert(images, loc, Live(obj)), resources, id, fromBegin) == Decide(images, resources, id, fromBegin)
  {
  }

  class ResourceHandler {
    /** The file system handler the images are read through. */
    const fs: FileSystemHandler
    /** Weak references to the images handed out, by locator. */
    var images: map<ResourceLocator, WeakSlot<Image>>

    constructor (fs: FileSystemHandler)
      ensures this.fs == fs && images == map[]
    {
      this.fs := fs;
      images := map[];
    }

    /** `loadImage`: the stream `getResource` returns for the identifier,
        made into an image with the extension given. Nothing is recorded. */
    method LoadImage(identifier: ResourceIdentifier, fileExt: string, fromBegin: bool) returns (img: Image)
      requires fs.Valid()
      modifies fs
      ensures fs.Valid() && fs.resources == old(fs.resources) && fs.loaders == old(fs.loaders)
      ensures fresh(img) && img.fileExt == fileExt
      ensures identifier !in fs.resources ==> img.data == null && fs.memoryStreams == old(fs.memoryStreams)
      ensures identifier in fs.resources ==>
        var loc := Lookup(fs.resources, identifier, fromBegin).value;
        (old(SlotOf(fs.memoryStreams, loc)).Live? ==> img.data == old(SlotOf(fs.memoryStreams, loc)).obj) &&
        (!old(SlotOf(fs.memoryStreams, loc)).Live? ==>
           fs.memoryStreams == CacheInsert(old(fs.memoryStreams), loc, SlotFor(img.data)))
      ensures img.data != null ==> img.data.Valid()
    {
      var data := fs.GetResource(identifier, fromBegin);
      img := new Image(data, fileExt);
    }

    /** `getImage` as written: null for an unregistered identifier, the
        cached image when the chosen locator's weak reference is live, and
        otherwise a freshly loaded image with the extension of the locator's
        name, which is not recorded: the cache never changes. */
    method GetImageAsWritten(identifier: ResourceIdentifier, fromBegin: bool, extensionOf: string -> string) returns (img: Image?)
      requires fs.Valid()
      modifies fs
      ensures fs.Valid() && fs.resources == old(fs.resources) && fs.loaders == old(fs.loaders)
      ensures images == old(images)
      ensures old(Decide(images, fs.resources, identifier, fromBegin)).NotFound? ==> img == null
      ensures old(Decide(images, fs.resources, identifier, fromBegin)).Cached? ==>
                img == old(Decide(images, fs.resources, identifier, fromBegin)).obj && fs.memoryStreams == old(fs.memoryStreams)
      ensures old(Decide(images, fs.resources, identifier, fromBegin)).Load? ==>
                img != null && fresh(img) &&
                img.fileExt == extensionOf(old(Decide(images, fs.resources, identifier, fromBegin)).loc.resourceName)
    {
      var step := Decide(images, fs.resources, identifier, fromBegin);
      match step
      case NotFound =>
        img := null;
      case Cached(obj) =>
        img := obj;
      case Load(loc) =>
        img := LoadImage(identifier, extensionOf(loc.resourceName), fromBegin);
    }

    /** `getImage` with the load recorded: the same decision, and a freshly
        loaded image also becomes the live entry of its locator, so the next
        request for it is served from the cache. */
    method GetImage(identifier: ResourceIdentifier, fromBegin: bool, extensionOf: string -> string) returns (img: Image?)
      requires fs.Valid()
      modifies this, fs
      ensures fs.Valid() && fs.resources == old(fs.resources) && fs.loaders == old(fs.loaders)
      ensures old(Decide(images, fs.resources, identifier, fromBegin)).NotFound? ==>
                img == null && images == old(images)
      ensures old(Decide(images, fs.resources, identifier, fromBegin)).Cached? ==>
                img == old(Decide(images, fs.resources, identifier, fromBegin)).obj &&
                images == old(images) && fs.memoryStreams == old(fs.memoryStreams)
      ensures old(Decide(images, fs.resources, identifier, fromBegin)).Load? ==>
                img != null && fresh(img) &&
                img.fileExt == extensionOf(old(Decide(images, fs.resources, identifier, fromBegin)).loc.resourceName) &&
                images == CacheInsert(old(images), old(Decide(images, fs.resources, identifier, fromBegin)).loc, Live(img))
      ensures img != null ==> Decide(images, fs.resources, identifier, fromBegin).Cached? &&
                              Decide(images, fs.resources, identifier, fromBegin).obj == img
    {
      var step := Decide(images, fs.resources, identifier, fromBegin);
      match step
      case NotFound =>
        img := null;
      case Cached(obj) =>
        img := obj;
      case Load(loc) =>
        var loaded := LoadImage(identifier, extensionOf(loc.resourceName), fromBegin);
        images := CacheInsert(images, loc, Live(loaded));
        img := loaded;
    }

    /** The last strong owner of the image cached for `loc` lets go of it:
        a live reference becomes expired; nothing else changes. */
    method Release(loc: ResourceLocator)
      modifies this
      ensures old(SlotOf(images, loc)).Live? ==> images == old(images)[loc := Expired]
      ensures !old(SlotOf(images, loc)).Live? ==> images == old(images)
    {
      if SlotOf(images, loc).Live? {
        images := images[loc := Expired];
      }
    }
  }
}
