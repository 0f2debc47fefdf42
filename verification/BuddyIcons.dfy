/** The buddy icon caches (libpurple/buddyicon.c, with purple_buddy_set_icon of
    libpurple/buddy.c): icon records with reference counts and an index over them, and per-file
    counts that decide when a cached file is deleted.

    An icon record is an entry of `icons`; freeing it takes the entry out, so that every later use
    of a freed record would be a lookup that does not verify.  An image is known by the name of its
    file, and who has references to it is counted by looking at all holders (`Used`). */
module BuddyIcons {
  import opened Basics
  import opened Counting

  datatype File = File(name: string)

  datatype IconId = IconId(serial: nat)

  // Whose setting names a file, or who points at an icon.
  datatype Holder = Buddy(id: nat) | Custom(node: nat) | Account(account: nat)

  datatype Key = Key(account: nat, username: Name)

  datatype Icon = Icon(key: Key, img: Option<File>, refs: int)

  // The reference count of a live record is what its holders add up to, and never 0; nobody
  // holds a record that was freed.
  ghost predicate RefOk(icons: map<IconId, Icon>, pointing: map<Holder, IconId>, held: map<IconId, int>, i: IconId) {
    var holders := Count(held, i) + Named(pointing, i);
    && 0 <= Count(held, i)
    && if i in icons then icons[i].refs == holders && 0 < holders else holders == 0
  }

  // The index finds exactly the live records, each under its own account and user name.
  ghost predicate IndexOk(icons: map<IconId, Icon>, index: map<Key, IconId>) {
    && (forall k :: k in index ==> index[k] in icons && icons[index[k]].key == k)
    && (forall i :: i in icons ==> icons[i].key in index && index[icons[i].key] == i)
  }

  ghost predicate Same(before: map<IconId, Icon>, after: map<IconId, Icon>, i: IconId) {
    i in before && i in after && after[i].key == before[i].key && after[i].img == before[i].img
  }

  // Records may be gone, but those that are left are what they were, up to their counts.
  ghost predicate Kept(before: map<IconId, Icon>, after: map<IconId, Icon>) {
    after.Keys <= before.Keys && forall i {:trigger Same(before, after, i)} :: i in after ==> Same(before, after, i)
  }

  lemma KeptOn(a: map<IconId, Icon>, b: map<IconId, Icon>, c: map<IconId, Icon>)
    requires Kept(a, b) && Kept(b, c)
    ensures Kept(a, c)
  {
    forall i | i in c ensures Same(a, c, i) {
      assert Same(b, c, i) && Same(a, b, i);
    }
  }

  // The records there before and after are what they were, up to their counts; but for those of
  // one key, if it is given.
  ghost predicate Unaltered(before: map<IconId, Icon>, after: map<IconId, Icon>, but: Option<Key>) {
    forall i {:trigger Same(before, after, i)} ::
      i in before && i in after && Some(before[i].key) != but ==> Same(before, after, i)
  }

  predicate HasImage(icons: map<IconId, Icon>, img: File) {
    exists i :: i in icons && icons[i].img == Some(img)
  }

  // Somebody has a reference to the image: an icon, an account or custom icon, or a caller.
  predicate Used(icons: map<IconId, Icon>, pointers: map<Holder, File>, imagesHeld: map<File, int>, img: File) {
    || HasImage(icons, img)
    || (exists h :: h in pointers && pointers[h] == img)
    || Count(imagesHeld, img) > 0
  }

  // No file comes, and none goes as long as its image is in use.
  ghost predicate FileKept(
    before: set<File>, after: set<File>,
    icons: map<IconId, Icon>, pointers: map<Holder, File>, imagesHeld: map<File, int>, f: File)
  {
    f in before && f !in after ==> !Used(icons, pointers, imagesHeld, f)
  }

  ghost predicate FilesKept(
    before: set<File>, after: set<File>,
    icons: map<IconId, Icon>, pointers: map<Holder, File>, imagesHeld: map<File, int>)
  {
    && after <= before
    && forall f: File {:trigger FileKept(before, after, icons, pointers, imagesHeld, f)} ::
         FileKept(before, after, icons, pointers, imagesHeld, f)
  }

  lemma KeptHasLess(icons: map<IconId, Icon>, icons': map<IconId, Icon>, f: File)
    requires Kept(icons, icons')
    ensures HasImage(icons', f) ==> HasImage(icons, f)
  {
    if i :| i in icons' && icons'[i].img == Some(f) {
      assert Same(icons, icons', i);
    }
  }

  // The same images are shown.
  ghost predicate ImagesStay(icons: map<IconId, Icon>, icons': map<IconId, Icon>) {
    forall f: File {:trigger HasImage(icons', f)} :: HasImage(icons, f) <==> HasImage(icons', f)
  }

  lemma SameImages(icons: map<IconId, Icon>, icons': map<IconId, Icon>)
    requires icons.Keys <= icons'.Keys && Unaltered(icons, icons', None)
    requires forall i :: i in icons' && i !in icons ==> icons'[i].img == None
    ensures ImagesStay(icons, icons')
  {
    forall f: File ensures HasImage(icons, f) <==> HasImage(icons', f) {
      if i :| i in icons && icons[i].img == Some(f) {
        assert Same(icons, icons', i);
      }
      if i :| i in icons' && icons'[i].img == Some(f) {
        assert Same(icons, icons', i);
      }
    }
  }

  lemma FilesKeptOn(
    a: set<File>, b: set<File>, c: set<File>, icons: map<IconId, Icon>, icons': map<IconId, Icon>,
    pointers: map<Holder, File>, imagesHeld: map<File, int>)
    requires FilesKept(a, b, icons, pointers, imagesHeld) && Kept(icons, icons')
    requires FilesKept(b, c, icons', pointers, imagesHeld)
    ensures FilesKept(a, c, icons', pointers, imagesHeld)
  {
    forall f: File ensures FileKept(a, c, icons', pointers, imagesHeld, f) {
      assert FileKept(a, b, icons, pointers, imagesHeld, f) && FileKept(b, c, icons', pointers, imagesHeld, f);
      KeptHasLess(icons, icons', f);
    }
  }

  lemma FewerHeld(
    before: set<File>, after: set<File>, icons: map<IconId, Icon>, pointers: map<Holder, File>,
    imagesHeld: map<File, int>, fewer: map<File, int>)
    requires FilesKept(before, after, icons, pointers, imagesHeld)
    requires forall f: File :: Count(fewer, f) <= Count(imagesHeld, f)
    ensures FilesKept(before, after, icons, pointers, fewer)
  {
    forall f: File ensures FileKept(before, after, icons, pointers, fewer, f) {
      assert FileKept(before, after, icons, pointers, imagesHeld, f);
    }
  }

  // Every file's count is the number of settings that name it.
  ghost predicate CountsExact(counts: map<File, int>, settings: map<Holder, File>) {
    forall f {:trigger Excess(counts, settings, f)} :: Excess(counts, settings, f) == 0
  }

  // No count is too low.
  ghost predicate NeverShort(counts: map<File, int>, settings: map<Holder, File>) {
    forall f {:trigger Excess(counts, settings, f)} :: Excess(counts, settings, f) >= 0
  }

  ghost predicate IsNamed(settings: map<Holder, File>, f: File) {
    exists h :: h in settings && settings[h] == f
  }

  // What reading a cached icon file from disk gives.
  datatype FileRead = Unreadable | Empty | Contents(image: File)

  // The settings, without those of `list` whose file is gone.
  function OnDisk(settings: map<Holder, File>, list: seq<Holder>, disk: set<File>): map<Holder, File> {
    map h | h in settings && (h in list ==> settings[h] in disk) :: settings[h]
  }

  lemma DistinctFront(a: seq<Holder>, b: seq<Holder>)
    requires Distinct(a + b)
    ensures [] + a == a && Distinct(a)
  {
    assert forall i :: 0 <= i < |a| ==> a[i] == (a + b)[i];
  }

  lemma OnDiskTwice(settings: map<Holder, File>, a: seq<Holder>, b: seq<Holder>, disk: set<File>)
    requires forall h :: h in settings ==> h in a + b
    ensures OnDisk(OnDisk(settings, a, disk), b, disk) == map h | h in settings && settings[h] in disk :: settings[h]
  {
    forall h | h in settings ensures h in a || h in b {
      assert h in a + b;
    }
  }

  lemma AllCounted(counts: map<File, int>, settings: map<Holder, File>, all: seq<Holder>)
    requires Distinct(all) && forall h :: h in settings ==> h in all
    requires forall f: File :: Count(counts, f) == NamedAmong(settings, all, f)
    ensures CountsExact(counts, settings)
  {
    forall f: File ensures Excess(counts, settings, f) == 0 {
      NamedAmongAll(settings, all, f);
    }
  }

  // With exact counts before, un-counting every buddy of `list` keeps them exact exactly when
  // none of them has a setting.
  lemma LossShows(
    counts: map<File, int>, settings: map<Holder, File>,
    counts': map<File, int>, settings': map<Holder, File>, list: seq<Holder>)
    requires CountsExact(counts, settings)
    requires forall f {:trigger Excess(counts', settings', f)} ::
               Excess(counts', settings', f) == Excess(counts, settings, f) - NamedAmong(settings, list, f)
    ensures CountsExact(counts', settings') <==> forall b :: b in list ==> b !in settings
  {
    if b :| b in list && b in settings {
      NamedAmongHas(settings, list, b);
      assert Excess(counts', settings', settings[b]) < 0;
    } else {
      forall f: File ensures Excess(counts', settings', f) == 0 {
        NamedAmongNone(settings, list, f);
        assert Excess(counts, settings, f) == 0;
      }
    }
  }

  // The difference that reading an icon from disk makes shows, unless the file was empty.
  lemma FindShows(
    counts: map<File, int>, settings: map<Holder, File>,
    counts': map<File, int>, settings': map<Holder, File>, list: seq<Holder>, content: FileRead)
    requires list != [] && list[0] in settings
    requires forall f {:trigger Excess(counts', settings', f)} ::
               Excess(counts', settings', f) == Excess(counts, settings, f) +
                 match content
                 case Unreadable => One(settings[list[0]] == f) as int
                 case Empty => 0
                 case Contents(_) => 0 - NamedAmong(settings, list, f)
    ensures CountsExact(counts, settings) ==> (CountsExact(counts', settings') <==> content.Empty?)
  {
    if CountsExact(counts, settings) {
      assert Excess(counts, settings, settings[list[0]]) == 0;
      assert content.Unreadable? ==> Excess(counts', settings', settings[list[0]]) == 1;
      if content.Contents? {
        LossShows(counts, settings, counts', settings', list);
        assert list[0] in list;
      } else if content.Empty? {
        assert forall f: File :: Excess(counts, settings, f) == 0;
      }
    }
  }

  lemma ExactIsNotShort(counts: map<File, int>, settings: map<Holder, File>)
    requires CountsExact(counts, settings)
    ensures NeverShort(counts, settings)
  {
    forall f: File ensures Excess(counts, settings, f) >= 0 {
      assert Excess(counts, settings, f) == 0;
    }
  }

  // The first buddy's setting goes without being un-counted, and then each other one's is un-counted
  // without going: that comes out right if just one other buddy has a setting, the same.
  ghost predicate MadeUpFor(settings: map<Holder, File>, list: seq<Holder>)
    requires list != [] && list[0] in settings
  {
    forall f: File :: NamedAmong(settings - {list[0]}, list, f) == One(settings[list[0]] == f)
  }

  // What the disk-load branch and an image shown without caching do to exact counts together.
  lemma ExactWithoutCaching(
    counts: map<File, int>, settings: map<Holder, File>,
    counts': map<File, int>, settings': map<Holder, File>, list: seq<Holder>, content: FileRead)
    requires list != [] && list[0] in settings && CountsExact(counts, settings)
    requires forall f {:trigger Excess(counts', settings', f)} ::
               Excess(counts', settings', f) == Excess(counts, settings, f) +
                 match content
                 case Unreadable => One(settings[list[0]] == f) - NamedAmong(settings - {list[0]}, list, f)
                 case Empty => 0 - NamedAmong(PutAll(settings, list, None), list, f)
                 case Contents(_) => 0 - NamedAmong(settings, list, f) - NamedAmong(settings, list, f)
    ensures CountsExact(counts', settings') <==>
            content.Empty? || (content.Unreadable? && MadeUpFor(settings, list))
  {
    match content
    case Unreadable =>
      MadeUpForShows(counts, settings, counts', settings', list);
    case Empty =>
      forall f: File ensures Excess(counts', settings', f) == 0 {
        NoneAmongCleared(settings, list, f);
        assert Excess(counts, settings, f) == 0;
      }
    case Contents(_) =>
      NamedAmongHas(settings, list, list[0]);
      assert Excess(counts, settings, settings[list[0]]) == 0;
      assert Excess(counts', settings', settings[list[0]]) < 0;
  }

  lemma MadeUpForShows(
    counts: map<File, int>, settings: map<Holder, File>,
    counts': map<File, int>, settings': map<Holder, File>, list: seq<Holder>)
    requires list != [] && list[0] in settings && CountsExact(counts, settings)
    requires forall f {:trigger Excess(counts', settings', f)} ::
               Excess(counts', settings', f) == Excess(counts, settings, f)
                 + One(settings[list[0]] == f) - NamedAmong(settings - {list[0]}, list, f)
    ensures CountsExact(counts', settings') <==> MadeUpFor(settings, list)
  {
    forall f: File
      ensures Excess(counts', settings', f) == 0 <==>
              NamedAmong(settings - {list[0]}, list, f) == One(settings[list[0]] == f)
    {
      assert Excess(counts, settings, f) == 0;
    }
  }

  lemma NoneAmongCleared(settings: map<Holder, File>, list: seq<Holder>, f: File)
    ensures NamedAmong(PutAll(settings, list, None), list, f) == 0
  {
    forall b | b in list ensures b !in PutAll(settings, list, None) {
      PutAllGet(settings, list, None, b);
    }
    NamedAmongNone(PutAll(settings, list, None), list, f);
  }

  // What the rest of the program may ask of the icons.
  datatype Request =
    | ForUser(key: Key, image: Option<File>)
    | Own(holder: Holder, image: Option<File>)
    | Point(buddy: Holder, at: Option<IconId>)
    | Fetch(key: Key)
    | Take(icon: IconId)
    | Give(icon: IconId)
    | Fill(icon: IconId, image: Option<File>)
    | TakeImage(img: File)
    | GiveImage(img: File)

  // Where a loop started.
  datatype Start = Start(
    icons: map<IconId, Icon>, pointing: map<Holder, IconId>, settings: map<Holder, File>,
    counts: map<File, int>, disk: set<File>, misfired: bool)

  class IconCache {
    // the buddies of an account with a given name, one per group at most
    const buddies: map<Key, seq<Holder>>
    var caching: bool
    const writable: bool              // whether writing to the cache directory succeeds

    var settings: map<Holder, File>   // "buddy_icon" and "custom_buddy_icon"
    var counts: map<File, int>        // icon_file_cache
    var disk: set<File>
    var pointers: map<Holder, File>   // pointer_icon_cache
    var imagesHeld: map<File, nat>    // references to images held by callers, or by nobody any more
    ghost var misfired: bool          // a file was deleted while a setting named it

    var icons: map<IconId, Icon>
    var index: map<Key, IconId>       // account_cache
    var pointing: map<Holder, IconId> // the icon each buddy points at
    var next: nat
    var held: map<IconId, int>        // references held by callers

    ghost predicate Ok()
      reads `icons, `index, `pointing, `held, `next
    {
      && IndexOk(icons, index)
      && (forall i {:trigger RefOk(icons, pointing, held, i)} :: RefOk(icons, pointing, held, i))
      && (forall i :: i in icons ==> i.serial < next)
    }

    // Before anything is loaded: settings as they were saved, files as they are found.
    constructor (
      buddies: map<Key, seq<Holder>>, settings: map<Holder, File>, disk: set<File>, caching: bool, writable: bool)
      ensures Ok() && this.buddies == buddies && this.caching == caching && this.writable == writable
      ensures this.settings == settings && this.disk == disk && counts == map[]
      ensures icons == map[] && index == map[] && pointing == map[] && held == map[] && !misfired
      ensures pointers == map[] && imagesHeld == map[]
    {
      this.buddies, this.settings, this.disk := buddies, settings, disk;
      this.caching, this.writable := caching, writable;
      counts, pointers, misfired, imagesHeld := map[], map[], false, map[];
      icons, index, pointing, next, held := map[], map[], map[], 0, map[];
      new;
      forall i ensures RefOk(icons, pointing, held, i) {
        assert Namers(pointing, i) == {};
      }
    }

    function Matches(key: Key): (s: seq<Holder>)
      ensures s == if key in buddies then buddies[key] else []
    {
      if key in buddies then buddies[key] else []
    }

    // ----- files -----

    method RefFilename(f: File)
      modifies `counts
      ensures forall x :: Count(counts, x) == old(Count(counts, x)) + One(x == f)
    {
      var refs := Count(counts, f);
      counts := counts[f := refs + 1];
    }

    method UnrefFilename(f: Option<File>)
      modifies `counts
      ensures forall x :: Count(counts, x) == old(Count(counts, x)) - One(f == Some(x))
      ensures f.Some? && Count(counts, f.value) == 0 ==> f.value !in counts
    {
      if f.None? {
        return;
      }
      var refs := Count(counts, f.value);
      if refs == 1 {
        counts := counts - {f.value};
      } else {
        counts := counts[f.value := refs - 1];
      }
    }

    // purple_buddy_icon_data_uncache_file()
    method UncacheFile(f: File)
      modifies `disk, `misfired
      ensures disk == if Count(counts, f) == 0 then old(disk) - {f} else old(disk)
      ensures misfired == (old(misfired) || (f in old(disk) && f !in disk && IsNamed(settings, f)))
      ensures Excess(counts, settings, f) >= 0 ==> misfired == old(misfired)
    {
      NamedIsPositive(settings, f);
      if Count(counts, f) != 0 {
        return;
      }
      if f in disk {
        disk := disk - {f};
        misfired := misfired || IsNamed(settings, f);
      }
    }

    // The image is loaded.
    predicate InUse(img: File)
      reads `icons, `pointers, `imagesHeld
    {
      Used(icons, pointers, imagesHeld, img)
    }

    // Starting with the files of `before`.
    ghost predicate KeepsFiles(before: set<File>)
      reads `disk, `icons, `pointers, `imagesHeld
    {
      FilesKept(before, disk, icons, pointers, imagesHeld)
    }

    // The file of an image that nobody has and no setting is counted for is gone.
    ghost predicate Uncached(img: Option<File>)
      reads `icons, `pointers, `imagesHeld, `counts, `disk
    {
      img.Some? && !InUse(img.value) && Count(counts, img.value) == 0 ==> img.value !in disk
    }

    // A holder has dropped its reference to an image; image_deleting_cb() runs if it was the last.
    // Its search for pointers to the image finds none, since they hold references themselves.
    method DropImage(img: Option<File>)
      modifies `disk, `misfired
      ensures Uncached(img) && KeepsFiles(old(disk))
      ensures forall f :: f in old(disk) && f !in disk ==> img == Some(f) && Count(counts, f) == 0
      ensures NeverShort(counts, settings) ==> misfired == old(misfired)
    {
      if img.Some? && !InUse(img.value) {
        assert NeverShort(counts, settings) ==> Excess(counts, settings, img.value) >= 0;
        UncacheFile(img.value);
      }
    }

    // References that callers take to images, and give back.
    method RefImage(img: File)
      modifies `imagesHeld
      ensures forall f :: Count(imagesHeld, f) == old(Count(imagesHeld, f)) + One(f == img)
    {
      imagesHeld := imagesHeld[img := Count(imagesHeld, img) + 1];
    }

    method UnrefImage(img: File)
      requires Count(imagesHeld, img) > 0
      modifies `imagesHeld, `disk, `misfired
      ensures forall f :: Count(imagesHeld, f) == old(Count(imagesHeld, f)) - One(f == img)
      ensures Uncached(Some(img)) && KeepsFiles(old(disk))
      ensures NeverShort(counts, settings) ==> misfired == old(misfired)
    {
      imagesHeld := imagesHeld[img := Count(imagesHeld, img) - 1];
      DropImage(Some(img));
    }

    // What is written for an image: nothing if it is loaded already, or caching is switched off.
    ghost function Written(data: Option<File>): set<File>
      reads `caching, `icons, `pointers, `imagesHeld
    {
      if data.Some? && caching && writable && !InUse(data.value) then {data.value} else {}
    }

    // purple_buddy_icon_data_new()
    method DataNew(f: File)
      modifies `disk
      ensures disk == old(disk) + Written(Some(f))
    {
      if !InUse(f) && caching && writable {
        disk := disk + {f};
      }
    }

    // A holder's setting is made to name `now`, or nothing, and the counts follow.
    method Rename(h: Holder, now: Option<File>)
      modifies `settings, `counts
      ensures settings == Put(old(settings), h, now)
      ensures forall f :: Excess(counts, settings, f) == Excess(old(counts), old(settings), f)
    {
      var was := Get(settings, h);
      if now.Some? {
        settings := settings[h := now.value];
        RefFilename(now.value);
      } else {
        settings := settings - {h};
      }
      UnrefFilename(was);
      forall f: File {
        NamedAfterPut(old(settings), h, now, f);
      }
    }

    // ----- icon records -----

    // purple_buddy_icon_unref() of a record that its counter says is held.
    method UnrefIcon(i: IconId)
      requires IndexOk(icons, index) && i in icons && icons[i].refs > 0
      modifies `icons, `index, `disk, `misfired
      ensures IndexOk(icons, index)
      ensures icons == if old(icons)[i].refs == 1 then old(icons) - {i}
                       else old(icons)[i := old(icons)[i].(refs := old(icons)[i].refs - 1)]
      ensures NeverShort(counts, settings) ==> misfired == old(misfired)
      ensures KeepsFiles(old(disk))
      ensures i !in icons ==> Uncached(old(icons)[i].img)
    {
      var icon := icons[i];
      icon := icon.(refs := icon.refs - 1);
      if icon.refs == 0 {
        index := index - {icon.key};
        icons := icons - {i};
        DropImage(icon.img);
      } else {
        icons := icons[i := icon];
      }
    }

    // purple_buddy_icon_ref(), by a caller.
    method RefIcon(i: IconId)
      requires Ok() && i in icons
      modifies `icons, `held
      ensures Ok()
      ensures icons == old(icons)[i := old(icons)[i].(refs := old(icons)[i].refs + 1)]
      ensures held == old(held)[i := Count(old(held), i) + 1]
    {
      assert RefOk(icons, pointing, held, i);
      icons := icons[i := icons[i].(refs := icons[i].refs + 1)];
      held := held[i := Count(held, i) + 1];
      forall j ensures RefOk(icons, pointing, held, j) {
        assert RefOk(old(icons), pointing, old(held), j);
      }
    }

    // purple_buddy_icon_unref(), by a caller that holds a reference: the record goes when that
    // was the last one.
    method ReleaseIcon(i: IconId)
      requires Ok() && Count(held, i) > 0
      modifies `icons, `index, `held, `disk, `misfired
      ensures Ok()
      ensures held == old(held)[i := Count(old(held), i) - 1]
      ensures i in icons <==> Count(held, i) + Named(pointing, i) > 0
      ensures Kept(old(icons), icons)
      ensures NeverShort(counts, settings) ==> misfired == old(misfired)
      ensures KeepsFiles(old(disk))
      ensures i in old(icons) && (i !in icons ==> Uncached(old(icons)[i].img))
    {
      assert RefOk(icons, pointing, held, i);
      UnrefIcon(i);
      held := held[i := Count(held, i) - 1];
      forall j ensures RefOk(icons, pointing, held, j) {
        assert RefOk(old(icons), pointing, old(held), j);
      }
    }

    // purple_buddy_set_icon(): the buddy's reference moves from the old icon to the new one.
    method SetBuddyIcon(b: Holder, icon: Option<IconId>)
      requires Ok() && (icon.Some? ==> icon.value in icons)
      modifies `icons, `index, `pointing, `disk, `misfired
      ensures Ok()
      ensures pointing == Put(old(pointing), b, icon)
      ensures Kept(old(icons), icons)
      ensures NeverShort(counts, settings) ==> misfired == old(misfired)
      ensures KeepsFiles(old(disk))
    {
      var was := Get(pointing, b);
      if was == icon {
        return;
      }
      LeaveIcon(b);
      label Left:
      if icon.Some? {
        JoinIcon(b, icon.value);
        KeptOn(old(icons), old@Left(icons), icons);
        FilesKeptOn(old(disk), disk, disk, old@Left(icons), icons, pointers, imagesHeld);
      }
    }

    method LeaveIcon(b: Holder)
      requires Ok()
      modifies `icons, `index, `pointing, `disk, `misfired
      ensures Ok()
      ensures pointing == old(pointing) - {b}
      ensures Kept(old(icons), icons)
      ensures forall j :: j in old(icons) && Get(old(pointing), b) != Some(j) ==> j in icons
      ensures NeverShort(counts, settings) ==> misfired == old(misfired)
      ensures KeepsFiles(old(disk))
      ensures b in old(pointing) && old(pointing)[b] in old(icons) && old(pointing)[b] !in icons ==>
                Uncached(old(icons)[old(pointing)[b]].img)
    {
      if b in pointing {
        var was := pointing[b];
        NamedIsPositive(pointing, was);
        assert RefOk(icons, pointing, held, was);
        UnrefIcon(was);
        pointing := pointing - {b};
        forall j ensures RefOk(icons, pointing, held, j) {
          assert RefOk(old(icons), old(pointing), held, j);
          NamedAfterPut(old(pointing), b, None, j);
        }
      } else {
        assert pointing - {b} == pointing;
      }
    }

    method JoinIcon(b: Holder, i: IconId)
      requires Ok() && i in icons && b !in pointing
      modifies `icons, `pointing
      ensures Ok()
      ensures pointing == old(pointing)[b := i]
      ensures icons.Keys == old(icons).Keys && Kept(old(icons), icons)
    {
      icons := icons[i := icons[i].(refs := icons[i].refs + 1)];
      pointing := pointing[b := i];
      forall j ensures RefOk(icons, pointing, held, j) {
        assert RefOk(old(icons), old(pointing), held, j);
        NamedAfterPut(old(pointing), b, Some(i), j);
      }
    }

    // ----- showing an icon -----

    // With the caching switched off an image is shown without its file being named, yet the
    // file named before is un-counted.
    ghost predicate Lossy(i: IconId)
      reads this
      requires i in icons
    {
      icons[i].img.Some? && !caching
    }

    // One round of purple_buddy_icon_update(), which itself holds the icon.
    method UpdateBuddy(b: Holder, i: IconId)
      requires Ok() && Count(held, i) > 0 && i in icons
      modifies `icons, `index, `pointing, `settings, `counts, `disk, `misfired
      ensures Ok() && i in icons
      ensures Kept(old(icons), icons)
      ensures pointing == Put(old(pointing), b, if icons[i].img.Some? then Some(i) else None)
      ensures settings == if Lossy(i) then old(settings) else Put(old(settings), b, icons[i].img)
      ensures forall f :: Excess(counts, settings, f) == Excess(old(counts), old(settings), f)
                          - (if Lossy(i) then One(Get(old(settings), b) == Some(f)) else 0)
      ensures NeverShort(old(counts), old(settings)) ==> misfired == old(misfired)
      ensures KeepsFiles(old(disk))
    {
      assert RefOk(icons, pointing, held, i);
      SetBuddyIcon(b, if icons[i].img.Some? then Some(i) else None);
      assert RefOk(icons, pointing, held, i) && (i in icons ==> Same(old(icons), icons, i));
      if icons[i].img.Some? && !caching {
        UnrefFilename(Get(settings, b));
      } else {
        Rename(b, icons[i].img);
      }
    }

    // What purple_buddy_icon_update() makes of each count.
    ghost function AfterUpdate(key: Key, img: Option<File>, f: File): int
      reads this
    {
      Excess(counts, settings, f) - if img.Some? && !caching then NamedAmong(settings, Matches(key), f) else 0
    }

    // purple_buddy_icon_update(): every buddy of that name points at the icon, or at none if it
    // has no image, and names its file.  The record is gone afterwards exactly if nobody holds it.
    method Update(i: IconId)
      requires Ok() && i in icons
      modifies `icons, `index, `pointing, `held, `settings, `counts, `disk, `misfired
      ensures Ok() && Kept(old(icons), icons)
      ensures forall j :: Count(held, j) == old(Count(held, j))
      ensures i in icons <==> Count(held, i) + Named(pointing, i) > 0
      ensures pointing == PutAll(old(pointing), Matches(old(icons)[i].key),
                                 if old(icons)[i].img.Some? then Some(i) else None)
      ensures settings == if old(Lossy(i)) then old(settings)
                          else PutAll(old(settings), Matches(old(icons)[i].key), old(icons)[i].img)
      ensures forall f {:trigger Excess(counts, settings, f)} ::
                Excess(counts, settings, f) == old(AfterUpdate(icons[i].key, icons[i].img, f))
      ensures !old(Lossy(i)) && NeverShort(old(counts), old(settings)) ==> misfired == old(misfired)
      ensures ExactAfterUpdate(old(counts), old(settings), old(icons)[i].key, old(icons)[i].img)
      ensures KeepsFiles(old(disk))
    {
      ghost var key, img := icons[i].key, icons[i].img;
      ShowIcon(i);
      label Shown:
      ReleaseIcon(i);
      KeptOn(old(icons), old@Shown(icons), icons);
      FilesKeptOn(old(disk), old@Shown(disk), disk, old@Shown(icons), icons, pointers, imagesHeld);
      ExactnessShows(old(counts), old(settings), key, img);
    }

    // Exact counts are exact afterwards exactly if caching is on, or no buddy had a setting to lose.
    ghost predicate ExactAfterUpdate(
      counts0: map<File, int>, settings0: map<Holder, File>, key: Key, img: Option<File>)
      reads this
    {
      CountsExact(counts0, settings0) ==>
        (CountsExact(counts, settings) <==>
         img.None? || caching || forall b :: b in Matches(key) ==> b !in settings0)
    }

    lemma ExactnessShows(counts0: map<File, int>, settings0: map<Holder, File>, key: Key, img: Option<File>)
      requires forall f {:trigger Excess(counts, settings, f)} ::
                 Excess(counts, settings, f) == Excess(counts0, settings0, f)
                   - if img.Some? && !caching then NamedAmong(settings0, Matches(key), f) else 0
      ensures ExactAfterUpdate(counts0, settings0, key, img)
    {
      if CountsExact(counts0, settings0) {
        if img.Some? && !caching {
          LossShows(counts0, settings0, counts, settings, Matches(key));
        } else {
          assert forall f: File :: Excess(counts0, settings0, f) == 0;
        }
      }
    }

    // The update, still holding the icon.
    method ShowIcon(i: IconId)
      requires Ok() && i in icons
      modifies `icons, `index, `pointing, `held, `settings, `counts, `disk, `misfired
      ensures Ok() && Kept(old(icons), icons)
      ensures held == old(held)[i := Count(old(held), i) + 1] && Count(held, i) > 0
      ensures pointing == PutAll(old(pointing), Matches(old(icons)[i].key),
                                 if old(icons)[i].img.Some? then Some(i) else None)
      ensures settings == if old(Lossy(i)) then old(settings)
                          else PutAll(old(settings), Matches(old(icons)[i].key), old(icons)[i].img)
      ensures forall f {:trigger Excess(counts, settings, f)} ::
                Excess(counts, settings, f) == old(AfterUpdate(icons[i].key, icons[i].img, f))
      ensures !old(Lossy(i)) && NeverShort(old(counts), old(settings)) ==> misfired == old(misfired)
      ensures KeepsFiles(old(disk))
    {
      assert RefOk(icons, pointing, held, i);
      RefIcon(i);
      label Held:
      UpdateAll(Matches(icons[i].key), i);
      assert Same(old@Held(icons), icons, i);
      KeptOn(old(icons), old@Held(icons), icons);
    }

    // The loop of purple_buddy_icon_update().
    method UpdateAll(list: seq<Holder>, i: IconId)
      requires Ok() && i in icons && Count(held, i) > 0
      modifies `icons, `index, `pointing, `settings, `counts, `disk, `misfired
      ensures Ok() && i in icons && Kept(old(icons), icons)
      ensures pointing == PutAll(old(pointing), list, if icons[i].img.Some? then Some(i) else None)
      ensures settings == if Lossy(i) then old(settings) else PutAll(old(settings), list, icons[i].img)
      ensures forall f {:trigger Excess(counts, settings, f)} ::
                Excess(counts, settings, f) == Excess(old(counts), old(settings), f)
                                               - (if Lossy(i) then NamedAmong(old(settings), list, f) else 0)
      ensures !Lossy(i) && NeverShort(old(counts), old(settings)) ==> misfired == old(misfired)
      ensures KeepsFiles(old(disk))
    {
      ghost var start := Start(icons, pointing, settings, counts, disk, misfired);
      ghost var img := icons[i].img;
      assert list[..0] == [] && forall f: File :: NamedAmong(settings, list[..0], f) == 0;
      for k := 0 to |list|
        invariant Ok() && i in icons && icons[i].img == img && ShownTo(list[..k], i, start)
      {
        UpdateNext(list, k, i, start);
      }
      assert list[..|list|] == list;
    }

    // The buddies of `list` have been shown icon i.
    ghost predicate ShownTo(list: seq<Holder>, i: IconId, start: Start)
      reads this
      requires i in icons
    {
      && Kept(start.icons, icons) && KeepsFiles(start.disk)
      && pointing == PutAll(start.pointing, list, if icons[i].img.Some? then Some(i) else None)
      && settings == (if Lossy(i) then start.settings else PutAll(start.settings, list, icons[i].img))
      && (forall f {:trigger Excess(counts, settings, f)} ::
            Excess(counts, settings, f) == Excess(start.counts, start.settings, f)
                                           - (if Lossy(i) then NamedAmong(start.settings, list, f) else 0))
      && (!Lossy(i) && NeverShort(start.counts, start.settings) ==> misfired == start.misfired)
    }

    method UpdateNext(list: seq<Holder>, k: nat, i: IconId, ghost start: Start)
      requires Ok() && i in icons && Count(held, i) > 0 && k < |list| && ShownTo(list[..k], i, start)
      modifies `icons, `index, `pointing, `settings, `counts, `disk, `misfired
      ensures Ok() && i in icons && icons[i].img == old(icons)[i].img && ShownTo(list[..k + 1], i, start)
    {
      ghost var before, files := icons, disk;
      assert list[..k + 1][..k] == list[..k] && list[..k + 1][k] == list[k];
      UpdateBuddy(list[k], i);
      assert Same(before, icons, i);
      KeptOn(start.icons, before, icons);
      FilesKeptOn(start.disk, files, disk, before, icons, pointers, imagesHeld);
    }

    // purple_buddy_icon_set_data(); `data` is None for no data, or data of length 0.
    method SetData(i: IconId, data: Option<File>)
      requires Ok() && i in icons
      modifies `icons, `index, `pointing, `held, `settings, `counts, `disk, `misfired, `imagesHeld
      ensures Ok() && icons.Keys <= old(icons).Keys
      ensures forall j :: Count(held, j) == old(Count(held, j))
      ensures i in icons <==> Count(held, i) + Named(pointing, i) > 0
      ensures i in icons ==> icons[i].key == old(icons)[i].key && icons[i].img == data
      ensures pointing == PutAll(old(pointing), Matches(old(icons)[i].key), if data.Some? then Some(i) else None)
      ensures settings == if data.Some? && !caching then old(settings)
                          else PutAll(old(settings), Matches(old(icons)[i].key), data)
      ensures forall f {:trigger Excess(counts, settings, f)} ::
                Excess(counts, settings, f) == old(AfterUpdate(icons[i].key, data, f))
      ensures (data.Some? ==> caching) && NeverShort(old(counts), old(settings)) ==> misfired == old(misfired)
      ensures KeepsFiles(old(disk) + old(Written(data)))
      ensures Unaltered(old(icons), icons, Some(old(icons)[i].key))
      ensures imagesHeld == old(imagesHeld) && Uncached(old(icons)[i].img)
    {
      var old_img := icons[i].img;
      ShowHeld(i, data);
      label Shown:
      DropImage(old_img);
      FilesKeptOn(old(disk) + old(Written(data)), old@Shown(disk), disk, icons, icons, pointers, imagesHeld);
    }

    // Up to the point where the old image is dropped, which is held on to till then.
    method ShowHeld(i: IconId, data: Option<File>)
      requires Ok() && i in icons
      modifies `icons, `index, `pointing, `held, `settings, `counts, `disk, `misfired, `imagesHeld
      ensures Ok() && icons.Keys <= old(icons).Keys
      ensures forall j :: Count(held, j) == old(Count(held, j))
      ensures i in icons <==> Count(held, i) + Named(pointing, i) > 0
      ensures i in icons ==> icons[i].key == old(icons)[i].key && icons[i].img == data
      ensures pointing == PutAll(old(pointing), Matches(old(icons)[i].key), if data.Some? then Some(i) else None)
      ensures settings == if data.Some? && !caching then old(settings)
                          else PutAll(old(settings), Matches(old(icons)[i].key), data)
      ensures forall f {:trigger Excess(counts, settings, f)} ::
                Excess(counts, settings, f) == old(AfterUpdate(icons[i].key, data, f))
      ensures (data.Some? ==> caching) && NeverShort(old(counts), old(settings)) ==> misfired == old(misfired)
      ensures KeepsFiles(old(disk) + old(Written(data)))
      ensures Unaltered(old(icons), icons, Some(old(icons)[i].key))
      ensures imagesHeld == old(imagesHeld)
    {
      var others := imagesHeld;
      HoldImage(i);
      label Held:
      ShowImage(i, data);
      imagesHeld := others;
      FewerHeld(old(disk) + old(Written(data)), disk, icons, pointers, old@Held(imagesHeld), imagesHeld);
    }

    // The image of an icon is held on to while the icon changes; it is in use anyway.
    method HoldImage(i: IconId)
      requires i in icons
      modifies `imagesHeld
      ensures forall f {:trigger InUse(f)} :: InUse(f) <==> old(InUse(f))
      ensures forall f :: Count(imagesHeld, f) == old(Count(imagesHeld, f)) + One(icons[i].img == Some(f))
    {
      if icons[i].img.Some? {
        RefImage(icons[i].img.value);
      }
    }

    static lemma OnlyOneAltered(
      before: map<IconId, Icon>, i: IconId, data: Option<File>, stored: map<IconId, Icon>, after: map<IconId, Icon>)
      requires i in before && stored == before[i := before[i].(img := data)] && Kept(stored, after)
      ensures after.Keys <= before.Keys && Unaltered(before, after, Some(before[i].key))
      ensures i in after ==> after[i].key == before[i].key && after[i].img == data
    {
      assert i in after ==> Same(stored, after, i);
      forall j | j in before && j in after && before[j].key != before[i].key ensures Same(before, after, j) {
        assert Same(stored, after, j);
      }
    }

    // Up to the point where the old image is dropped.
    method ShowImage(i: IconId, data: Option<File>)
      requires Ok() && i in icons
      modifies `icons, `index, `pointing, `held, `settings, `counts, `disk, `misfired
      ensures Ok() && icons.Keys <= old(icons).Keys && Unaltered(old(icons), icons, Some(old(icons)[i].key))
      ensures forall j :: Count(held, j) == old(Count(held, j))
      ensures i in icons <==> Count(held, i) + Named(pointing, i) > 0
      ensures i in icons ==> icons[i].key == old(icons)[i].key && icons[i].img == data
      ensures pointing == PutAll(old(pointing), Matches(old(icons)[i].key), if data.Some? then Some(i) else None)
      ensures settings == if data.Some? && !caching then old(settings)
                          else PutAll(old(settings), Matches(old(icons)[i].key), data)
      ensures forall f {:trigger Excess(counts, settings, f)} ::
                Excess(counts, settings, f) == old(AfterUpdate(icons[i].key, data, f))
      ensures (data.Some? ==> caching) && NeverShort(old(counts), old(settings)) ==>
                misfired == old(misfired) && NeverShort(counts, settings)
      ensures KeepsFiles(old(disk) + old(Written(data)))
    {
      StoreImage(i, data);
      label Stored:
      Update(i);
      OnlyOneAltered(old(icons), i, data, old@Stored(icons), icons);
      if (data.Some? ==> caching) && NeverShort(old(counts), old(settings)) {
        forall f: File ensures Excess(counts, settings, f) >= 0 {
          assert Excess(old(counts), old(settings), f) >= 0;
        }
      }
    }

    method StoreImage(i: IconId, data: Option<File>)
      requires Ok() && i in icons
      modifies `icons, `disk
      ensures Ok() && icons == old(icons)[i := old(icons)[i].(img := data)]
      ensures disk == old(disk) + old(Written(data))
    {
      if data.Some? {
        DataNew(data.value);
      }
      SetImage(i, data);
    }

    method SetImage(i: IconId, img: Option<File>)
      requires Ok() && i in icons
      modifies `icons
      ensures Ok()
      ensures icons == old(icons)[i := old(icons)[i].(img := img)]
    {
      icons := icons[i := icons[i].(img := img)];
      forall j ensures RefOk(icons, pointing, held, j) {
        assert RefOk(old(icons), pointing, held, j);
      }
    }

    // purple_buddy_icon_create(), by a caller that found no record under the key.
    method CreateIcon(key: Key) returns (i: IconId)
      requires Ok() && key !in index
      modifies `icons, `index, `held, `next
      ensures Ok()
      ensures i !in old(icons) && icons == old(icons)[i := Icon(key, None, 1)]
      ensures index == old(index)[key := i] && held == old(held)[i := 1]
      ensures old(Count(held, i)) == 0
    {
      i := IconId(next);
      next := next + 1;
      assert RefOk(icons, pointing, held, i);
      icons := icons[i := Icon(key, None, 1)];
      index := index[key := i];
      held := held[i := 1];
      forall j ensures RefOk(icons, pointing, held, j) {
        assert RefOk(old(icons), pointing, old(held), j);
      }
    }

    // ----- finding an icon -----

    // The icon is not loaded, but a buddy of that name has a file for it.
    predicate DiskLoad(key: Key)
      reads this
    {
      key !in index && Matches(key) != [] && Matches(key)[0] in settings
    }

    // The same, told of the tables before.
    ghost function FoundExcess(
      counts0: map<File, int>, settings0: map<Holder, File>, disk_load: bool, key: Key, content: FileRead, f: File): int
      requires disk_load ==> Matches(key) != [] && Matches(key)[0] in settings0
    {
      Excess(counts0, settings0, f) +
      if !disk_load then 0
      else
        match content
        case Unreadable => One(settings0[Matches(key)[0]] == f) as int
        case Empty => 0
        case Contents(_) => 0 - NamedAmong(settings0, Matches(key), f)
    }

    ghost function FoundSettings(
      settings0: map<Holder, File>, disk_load: bool, key: Key, content: FileRead): map<Holder, File>
      requires disk_load ==> Matches(key) != [] && Matches(key)[0] in settings0
    {
      if !disk_load then settings0
      else
        match content
        case Unreadable => settings0 - {Matches(key)[0]}
        case Empty => PutAll(settings0, Matches(key), None)
        case Contents(_) => settings0
    }

    // What purple_buddy_icons_find() makes of the settings.
    ghost function SettingsAfterFind(key: Key, content: FileRead): map<Holder, File>
      reads this
    {
      FoundSettings(settings, DiskLoad(key), key, content)
    }

    ghost predicate SameElsewhere(key: Key, before: map<Holder, IconId>, after: map<Holder, IconId>) {
      forall h :: h !in Matches(key) ==> Get(after, h) == Get(before, h)
    }

    lemma PutAllElsewhere(key: Key, before: map<Holder, IconId>, v: Option<IconId>)
      ensures SameElsewhere(key, before, PutAll(before, Matches(key), v))
    {
      forall h | h !in Matches(key) ensures Get(PutAll(before, Matches(key), v), h) == Get(before, h) {
        PutAllGet(before, Matches(key), v, h);
      }
    }

    // What purple_buddy_icons_find() makes of each count.
    ghost function AfterFind(key: Key, content: FileRead, f: File): int
      reads this
    {
      FoundExcess(counts, settings, DiskLoad(key), key, content, f)
    }

    // The record that is made for a file just read: one reference for the caller, one too many.
    method LoadIcon(key: Key, img: Option<File>) returns (i: IconId)
      requires Ok() && key !in index && !caching
      modifies `icons, `index, `pointing, `held, `settings, `counts, `disk, `misfired, `imagesHeld, `next
      ensures Ok() && i in icons && icons[i].key == key
      ensures old(Count(held, i)) == 0 && Count(held, i) == 2
      ensures forall j :: j != i ==> Count(held, j) == old(Count(held, j))
      ensures forall f {:trigger Excess(counts, settings, f)} ::
                Excess(counts, settings, f) == old(AfterUpdate(key, img, f))
      ensures settings == if img.Some? then old(settings) else PutAll(old(settings), Matches(key), None)
      ensures pointing == PutAll(old(pointing), Matches(key), if img.Some? then Some(i) else None)
      ensures icons[i].img == img && i !in old(icons) && Unaltered(old(icons), icons, None)
      ensures imagesHeld == old(imagesHeld) && KeepsFiles(old(disk))
    {
      i := CreateWith(key, img);
      ghost var loaded, made := held, icons;
      RefIcon(i);
      forall j | j in old(icons) && j in icons ensures Same(old(icons), icons, j) {
        assert Same(old(icons), made, j);
      }
      FilesKeptOn(old(disk), disk, disk, made, icons, pointers, imagesHeld);
      forall j | j != i ensures Count(held, j) == old(Count(held, j)) {
        assert Count(held, j) == Count(loaded, j);
      }
    }

    method CreateWith(key: Key, img: Option<File>) returns (i: IconId)
      requires Ok() && key !in index && !caching
      modifies `icons, `index, `pointing, `held, `settings, `counts, `disk, `misfired, `imagesHeld, `next
      ensures Ok() && i in icons && icons[i].key == key
      ensures old(Count(held, i)) == 0 && Count(held, i) == 1
      ensures forall j :: j != i ==> Count(held, j) == old(Count(held, j))
      ensures forall f {:trigger Excess(counts, settings, f)} ::
                Excess(counts, settings, f) == old(AfterUpdate(key, img, f))
      ensures settings == if img.Some? then old(settings) else PutAll(old(settings), Matches(key), None)
      ensures pointing == PutAll(old(pointing), Matches(key), if img.Some? then Some(i) else None)
      ensures icons[i].img == img && i !in old(icons) && Unaltered(old(icons), icons, None)
      ensures imagesHeld == old(imagesHeld) && KeepsFiles(old(disk))
    {
      i := CreateIcon(key);
      label Created:
      SetData(i, img);
      assert Count(held, i) == 1;
      assert RefOk(icons, pointing, held, i);
      OthersUnaltered(key, old(icons), old@Created(icons), icons);
      assert old(disk) + old@Created(Written(img)) == old(disk);
      forall j | j != i ensures Count(held, j) == old(Count(held, j)) {
        assert Count(held, j) == old@Created(Count(held, j));
      }
    }

    // No record was filed under the key.
    static lemma OthersUnaltered(
      key: Key, before: map<IconId, Icon>, created: map<IconId, Icon>, after: map<IconId, Icon>)
      requires forall j :: j in before ==> j in created && created[j] == before[j] && before[j].key != key
      requires Unaltered(created, after, Some(key))
      ensures Unaltered(before, after, None)
    {
      forall j | j in before && j in after ensures Same(before, after, j) {
        assert Same(created, after, j);
      }
    }

    // purple_buddy_icons_find().  Reading the file from disk un-counts it for every buddy that
    // names it, and returns the record with one reference that nobody will give back; a file that
    // cannot be read is forgotten by the buddy but stays counted.
    method Find(key: Key, content: FileRead) returns (r: Option<IconId>)
      requires Ok()
      modifies `icons, `index, `pointing, `held, `settings, `counts, `disk, `misfired, `imagesHeld, `next, `caching
      ensures Ok() && caching == old(caching)
      // what is found: the record filed under the key, as it is; else one with the image on disk
      ensures r.Some? <==>
                || key in old(index)
                || (Matches(key) != [] && Matches(key)[0] in old(settings) && !content.Unreadable?)
      ensures key in old(index) ==> r == Some(old(index)[key])
      ensures r.None? ==> key !in index && icons == old(icons)
      ensures Unaltered(old(icons), icons, None) && imagesHeld == old(imagesHeld) && KeepsFiles(old(disk))
      ensures r.Some? ==> r.value in icons && icons[r.value].key == key
      ensures r.Some? && key !in old(index) ==>
                icons[r.value].img == if content.Contents? then Some(content.image) else None
      ensures r.Some? ==> Count(held, r.value) == old(Count(held, r.value)) + (if old(DiskLoad(key)) then 2 else 1)
      ensures forall j :: r != Some(j) ==> Count(held, j) == old(Count(held, j))
      ensures forall f {:trigger Excess(counts, settings, f)} ::
                Excess(counts, settings, f) == old(AfterFind(key, content, f))
      ensures !old(DiskLoad(key)) ==>
                && settings == old(settings) && counts == old(counts) && disk == old(disk)
                && ImagesStay(old(icons), icons)
                && misfired == old(misfired) && pointing == old(pointing)
      ensures settings == old(SettingsAfterFind(key, content))
      ensures SameElsewhere(key, old(pointing), pointing)
      // exact counts stay exact exactly if it does not go to the disk, or finds an empty file there
      ensures CountsExact(old(counts), old(settings)) ==>
                (CountsExact(counts, settings) <==> !old(DiskLoad(key)) || content.Empty?)
    {
      if key in index {
        RefIcon(index[key]);
        SameImages(old(icons), icons);
        return Some(index[key]);
      }
      if !DiskLoad(key) {
        return None;
      }
      var saved := caching;
      caching := false;
      r := ReadFromDisk(key, content);
      FindShows(old(counts), old(settings), counts, settings, Matches(key), content);
      caching := saved;
    }

    // The branch that goes to the disk, with caching switched off.
    method ReadFromDisk(key: Key, content: FileRead) returns (r: Option<IconId>)
      requires Ok() && DiskLoad(key) && !caching
      modifies `icons, `index, `pointing, `held, `settings, `counts, `disk, `misfired, `imagesHeld, `next
      ensures Ok() && (r.None? <==> content.Unreadable?) && (r.None? ==> key !in index)
      ensures r.Some? ==>
                && r.value in icons && icons[r.value].key == key
                && Count(held, r.value) == old(Count(held, r.value)) + 2
      ensures forall j :: r != Some(j) ==> Count(held, j) == old(Count(held, j))
      ensures forall f {:trigger Excess(counts, settings, f)} ::
                Excess(counts, settings, f) == old(AfterFind(key, content, f))
      ensures settings == old(SettingsAfterFind(key, content)) && SameElsewhere(key, old(pointing), pointing)
      ensures r.None? ==> icons == old(icons)
      ensures r.Some? ==> icons[r.value].img == if content.Contents? then Some(content.image) else None
      ensures Unaltered(old(icons), icons, None) && imagesHeld == old(imagesHeld) && KeepsFiles(old(disk))
    {
      var b := Matches(key)[0];
      if content.Unreadable? {
        settings := settings - {b};
        forall f: File {
          NamedAfterPut(old(settings), b, None, f);
        }
        r := None;
      } else {
        var i := LoadIcon(key, if content.Contents? then Some(content.image) else None);
        r := Some(i);
        PutAllElsewhere(key, old(pointing), if content.Contents? then r else None);
      }
    }

    // What finding the icon and then setting an image makes of each count.
    ghost function AfterNew(key: Key, content: FileRead, f: File): int
      reads this
    {
      NewExcess(counts, settings, DiskLoad(key), key, content, f)
    }

    ghost function NewExcess(
      counts0: map<File, int>, settings0: map<Holder, File>, disk_load: bool, key: Key, content: FileRead, f: File): int
      requires disk_load ==> Matches(key) != [] && Matches(key)[0] in settings0
      reads `caching
    {
      FoundExcess(counts0, settings0, disk_load, key, content, f)
        - if caching then 0 else NamedAmong(FoundSettings(settings0, disk_load, key, content), Matches(key), f)
    }

    // A reference too many comes with an icon that was read from disk.
    predicate Leaks(key: Key, content: FileRead)
      reads this
    {
      DiskLoad(key) && !content.Unreadable?
    }

    // The image of the icon that is filed under the key, or on disk.
    ghost function FoundImage(key: Key, content: FileRead): Option<File>
      reads `index, `icons, `settings
    {
      if key in index then (if index[key] in icons then icons[index[key]].img else None)
      else if Matches(key) != [] && Matches(key)[0] in settings && content.Contents? then Some(content.image)
      else None
    }

    // purple_buddy_icon_new(): the caller gets a reference, with the data set.
    method NewIcon(key: Key, data: File, content: FileRead) returns (i: IconId)
      requires Ok()
      modifies `icons, `index, `pointing, `held, `settings, `counts, `disk, `misfired, `imagesHeld, `next, `caching
      ensures Ok() && caching == old(caching)
      ensures i in icons && icons[i].key == key && icons[i].img == Some(data)
      ensures Count(held, i) == old(Count(held, i)) + (if old(Leaks(key, content)) then 2 else 1)
      ensures old(Count(held, i)) >= 0
      ensures forall j :: j != i ==> Count(held, j) == old(Count(held, j))
      ensures PointsTo(key, i) && SameElsewhere(key, old(pointing), pointing)
      ensures caching ==> settings == PutAll(old(SettingsAfterFind(key, content)), Matches(key), Some(data))
      ensures forall f {:trigger Excess(counts, settings, f)} ::
                Excess(counts, settings, f) == old(AfterNew(key, content, f))
      ensures !old(DiskLoad(key)) && caching && NeverShort(old(counts), old(settings)) ==> misfired == old(misfired)
      // the image it had is leaked
      ensures forall f ::
                Count(imagesHeld, f) == old(Count(imagesHeld, f)) + One(old(FoundImage(key, content)) == Some(f))
      ensures Unaltered(old(icons), icons, Some(key)) && disk <= old(disk) + (if caching then {data} else {})
      ensures !old(DiskLoad(key)) ==> KeepsFiles(old(disk) + old(Written(Some(data))))
      ensures key in old(index) ==> i == old(index)[key]
    {
      i := FindOrCreate(key, content);
      label Found:
      ShowNew(i, data);
      assert Count(held, i) == old@Found(Count(held, i));
      StillUnaltered(key, old(icons), old@Found(icons), icons);
      assert !old(DiskLoad(key)) ==> old@Found(Written(Some(data))) == old(Written(Some(data)));
      AfterBoth(old(counts), old(settings), old(DiskLoad(key)), key, content, old@Found(counts), old@Found(settings));
    }

    // What finding has made of each count, and what showing makes of that.
    lemma AfterBoth(
      counts0: map<File, int>, settings0: map<Holder, File>, disk_load: bool, key: Key, content: FileRead,
      counts1: map<File, int>, settings1: map<Holder, File>)
      requires disk_load ==> Matches(key) != [] && Matches(key)[0] in settings0
      requires settings1 == FoundSettings(settings0, disk_load, key, content)
      requires forall f {:trigger Excess(counts1, settings1, f)} ::
                 Excess(counts1, settings1, f) == FoundExcess(counts0, settings0, disk_load, key, content, f)
      requires forall f {:trigger Excess(counts, settings, f)} ::
                 Excess(counts, settings, f) ==
                 Excess(counts1, settings1, f) - if caching then 0 else NamedAmong(settings1, Matches(key), f)
      ensures forall f {:trigger Excess(counts, settings, f)} ::
                Excess(counts, settings, f) == NewExcess(counts0, settings0, disk_load, key, content, f)
    {
      forall f: File
        ensures Excess(counts, settings, f) == NewExcess(counts0, settings0, disk_load, key, content, f)
      {
        assert Excess(counts1, settings1, f) == FoundExcess(counts0, settings0, disk_load, key, content, f);
      }
    }

    static lemma StillUnaltered(
      key: Key, before: map<IconId, Icon>, found: map<IconId, Icon>, after: map<IconId, Icon>)
      requires Unaltered(before, found, None) && Unaltered(found, after, Some(key))
      requires forall j :: j in before && j in after ==> j in found
      ensures Unaltered(before, after, Some(key))
    {
      forall j | j in before && j in after && before[j].key != key ensures Same(before, after, j) {
        assert Same(before, found, j) && Same(found, after, j);
      }
    }

    // The second half: the image is set, and shown.  The record's reference to the image that it
    // had is never given back.
    method ShowNew(i: IconId, data: File)
      requires Ok() && i in icons && Count(held, i) > 0
      modifies `icons, `index, `pointing, `held, `settings, `counts, `disk, `misfired, `imagesHeld
      ensures Ok() && i in icons && icons[i].key == old(icons)[i].key && icons[i].img == Some(data)
      ensures forall j :: Count(held, j) == old(Count(held, j))
      ensures PointsTo(icons[i].key, i) && SameElsewhere(icons[i].key, old(pointing), pointing)
      ensures caching ==> settings == PutAll(old(settings), Matches(icons[i].key), Some(data))
      ensures forall f {:trigger Excess(counts, settings, f)} ::
                Excess(counts, settings, f) == old(AfterUpdate(icons[i].key, Some(data), f))
      ensures caching && NeverShort(old(counts), old(settings)) ==> misfired == old(misfired)
      ensures icons.Keys <= old(icons).Keys && Unaltered(old(icons), icons, Some(icons[i].key))
      ensures KeepsFiles(old(disk) + old(Written(Some(data))))
      ensures forall f :: Count(imagesHeld, f) == old(Count(imagesHeld, f)) + One(old(icons)[i].img == Some(f))
    {
      LoseImage(i);
      label Emptied:
      SetData(i, Some(data));
      assert RefOk(icons, pointing, held, i);
      OnlyOneShown(old(icons), i, old@Emptied(icons), icons);
      AllPoint(icons[i].key, old(pointing), i);
      PutAllElsewhere(icons[i].key, old(pointing), Some(i));
    }

    method LoseImage(i: IconId)
      requires Ok() && i in icons
      modifies `icons, `imagesHeld
      ensures Ok() && icons == old(icons)[i := old(icons)[i].(img := None)]
      ensures forall f :: Count(imagesHeld, f) == old(Count(imagesHeld, f)) + One(old(icons)[i].img == Some(f))
      ensures forall f {:trigger InUse(f)} :: InUse(f) <==> old(InUse(f))
    {
      HoldImage(i);
      ghost var was := icons;
      SetImage(i, None);
      forall f
        ensures HasImage(was, f) || Count(imagesHeld, f) > 0 <==> HasImage(icons, f) || Count(imagesHeld, f) > 0
      {
        if j :| j in was && was[j].img == Some(f) {
          assert j != i ==> icons[j].img == Some(f);
        }
        if j :| j in icons && icons[j].img == Some(f) {
          assert was[j].img == Some(f);
        }
      }
    }

    static lemma OnlyOneShown(
      before: map<IconId, Icon>, i: IconId, emptied: map<IconId, Icon>, after: map<IconId, Icon>)
      requires i in before && emptied == before[i := before[i].(img := None)]
      requires Unaltered(emptied, after, Some(before[i].key))
      ensures Unaltered(before, after, Some(before[i].key))
    {
      forall j | j in before && j in after && before[j].key != before[i].key ensures Same(before, after, j) {
        assert Same(emptied, after, j);
      }
    }

    ghost predicate PointsTo(key: Key, i: IconId)
      reads this
    {
      forall b :: b in Matches(key) ==> Get(pointing, b) == Some(i)
    }

    lemma AllPoint(key: Key, before: map<Holder, IconId>, i: IconId)
      requires pointing == PutAll(before, Matches(key), Some(i))
      ensures PointsTo(key, i)
    {
      forall b | b in Matches(key) ensures Get(pointing, b) == Some(i) {
        PutAllGet(before, Matches(key), Some(i), b);
      }
    }

    // A record without an image does not count for any.
    method CreateEmpty(key: Key) returns (i: IconId)
      requires Ok() && key !in index
      modifies `icons, `index, `held, `next
      ensures Ok() && i !in old(icons) && icons == old(icons)[i := Icon(key, None, 1)]
      ensures held == old(held)[i := 1] && old(Count(held, i)) == 0
      ensures ImagesStay(old(icons), icons) && Unaltered(old(icons), icons, None)
    {
      i := CreateIcon(key);
      SameImages(old(icons), icons);
    }

    method FindOrCreate(key: Key, content: FileRead) returns (i: IconId)
      requires Ok()
      modifies `icons, `index, `pointing, `held, `settings, `counts, `disk, `misfired, `imagesHeld, `next, `caching
      ensures Ok() && caching == old(caching)
      ensures i in icons && icons[i].key == key
      ensures Count(held, i) == old(Count(held, i)) + (if old(DiskLoad(key)) && !content.Unreadable? then 2 else 1)
      ensures old(Count(held, i)) >= 0
      ensures forall j :: j != i ==> Count(held, j) == old(Count(held, j))
      ensures !old(DiskLoad(key)) ==>
                && settings == old(settings) && counts == old(counts)
                && misfired == old(misfired) && pointing == old(pointing)
      ensures settings == old(SettingsAfterFind(key, content)) && SameElsewhere(key, old(pointing), pointing)
      ensures forall f {:trigger Excess(counts, settings, f)} ::
                Excess(counts, settings, f) == old(AfterFind(key, content, f))
      ensures icons[i].img == old(FoundImage(key, content))
      ensures Unaltered(old(icons), icons, None) && imagesHeld == old(imagesHeld) && disk <= old(disk)
      ensures key in old(index) ==> i == old(index)[key]
      ensures !old(DiskLoad(key)) ==> disk == old(disk)
      ensures !old(DiskLoad(key)) ==> ImagesStay(old(icons), icons)
    {
      var r := Find(key, content);
      ghost var found := icons;
      if r.None? {
        ghost var before := held;
        i := CreateEmpty(key);
        forall j | j != i ensures Count(held, j) == old(Count(held, j)) {
          assert Count(held, j) == Count(before, j);
        }
        assert Count(before, i) == old(Count(held, i));
      } else {
        i := r.value;
        assert key in old(index) ==> Same(old(icons), icons, i);
      }
      assert RefOk(old(icons), old(pointing), old(held), i);
      assert r.None? ==> found == old(icons);
    }

    // ----- the setters -----

    // What purple_buddy_icons_set_for_user() leaves: every buddy of that name points at the icon
    // filed under the key, which shows the image, and names its file; or has no setting.
    ghost predicate ShowsFor(key: Key, data: Option<File>)
      reads this
    {
      forall b :: b in Matches(key) ==>
        && (caching || data.None? ==> Get(settings, b) == data)
        && (data.Some? ==>
              && key in index && index[key] in icons && icons[index[key]].img == data
              && Get(pointing, b) == Some(index[key]))
    }

    // purple_buddy_icons_set_for_user()
    method SetForUser(key: Key, data: Option<File>, content: FileRead)
      requires Ok()
      modifies `icons, `index, `pointing, `held, `settings, `counts, `disk, `misfired, `imagesHeld, `next, `caching
      ensures Ok() && caching == old(caching)
      ensures ShowsFor(key, data) && SameElsewhere(key, old(pointing), pointing)
      // nobody is left holding a reference, but for the one too many of an icon read from disk
      ensures forall j :: Count(held, j) == old(Count(held, j))
                                            + One(data.Some? && old(Leaks(key, content)) && Filed(key, j))
      ensures forall f {:trigger Excess(counts, settings, f)} ::
                Excess(counts, settings, f) ==
                if data.Some? then old(AfterNew(key, content, f)) else old(Excess(counts, settings, f))
      ensures data.None? || (!old(DiskLoad(key)) && caching) ==>
                NeverShort(old(counts), old(settings)) ==> misfired == old(misfired)
      // clearing leaves no buddy with an icon exactly if the icon is filed under this very spelling
      // of the name, or none had one
      ensures data.None? ==>
                (NonePoints(key, pointing) <==> key in old(index) || NonePoints(key, old(pointing)))
      ensures CountsExact(old(counts), old(settings)) ==>
                (CountsExact(counts, settings) <==> old(SettingKeepsCounts(key, data, content)))
      // no other icon is altered, no other file written; the file of the image that is replaced goes
      // with its last holder, but an image that was just read from disk is leaked
      ensures Unaltered(old(icons), icons, Some(key))
      ensures disk <= old(disk) + (if caching && data.Some? then {data.value} else {})
      ensures data.None? || !old(DiskLoad(key)) ==> KeepsFiles(old(disk) + old(Written(data)))
      ensures key in old(index) ==> Uncached(old(icons[index[key]].img))
      ensures forall f :: Count(imagesHeld, f) == old(Count(imagesHeld, f))
                                                  + One(data.Some? && key !in old(index) &&
                                                        old(FoundImage(key, content)) == Some(f))
    {
      if key in index {
        SetFiled(key, data);
      } else if data.Some? {
        SetNewForUser(key, data.value, content);
      } else {
        ForgetUser(key);
      }
      if CountsExact(old(counts), old(settings)) {
        SettingShows(old(counts), old(settings), old(DiskLoad(key)), key, data, content);
      }
    }

    // The icon is not loaded and goes: the settings of the buddies are all there is.
    method ForgetUser(key: Key)
      requires Ok()
      modifies `settings, `counts
      ensures Ok() && ShowsFor(key, None)
      ensures forall f {:trigger Excess(counts, settings, f)} ::
                Excess(counts, settings, f) == old(Excess(counts, settings, f))
    {
      ForgetAll(Matches(key));
      StaysOk();
      forall b | b in Matches(key) ensures Get(settings, b) == None {
        PutAllGet(old(settings), Matches(key), None, b);
      }
    }

    // When exact counts stay exact: always when clearing; with caching on, if no file is read from
    // disk, or an empty one; with caching off, if no file is read and no buddy has a setting to
    // lose, or if an empty one is read, or if one is not readable and another buddy makes up for it.
    ghost predicate SettingKeepsCounts(key: Key, data: Option<File>, content: FileRead)
      reads this
    {
      KeepsCounts(settings, DiskLoad(key), key, data, content)
    }

    ghost predicate KeepsCounts(
      settings0: map<Holder, File>, disk_load: bool, key: Key, data: Option<File>, content: FileRead)
      requires disk_load ==> Matches(key) != [] && Matches(key)[0] in settings0
      reads `caching
    {
      if data.None? then true
      else if caching then !disk_load || content.Empty?
      else if !disk_load then forall b :: b in Matches(key) ==> b !in settings0
      else content.Empty? || (content.Unreadable? && MadeUpFor(settings0, Matches(key)))
    }

    lemma SettingShows(
      counts0: map<File, int>, settings0: map<Holder, File>, disk_load: bool,
      key: Key, data: Option<File>, content: FileRead)
      requires disk_load ==> Matches(key) != [] && Matches(key)[0] in settings0
      requires CountsExact(counts0, settings0)
      requires forall f {:trigger Excess(counts, settings, f)} ::
                 Excess(counts, settings, f) ==
                 if data.Some? then NewExcess(counts0, settings0, disk_load, key, content, f)
                 else Excess(counts0, settings0, f)
      ensures CountsExact(counts, settings) <==> KeepsCounts(settings0, disk_load, key, data, content)
    {
      if data.Some? && !caching && disk_load {
        ExactWithoutCaching(counts0, settings0, counts, settings, Matches(key), content);
      } else if data.Some? && caching {
        ExactAfterSetting(counts0, settings0, key, content, disk_load);
      } else {
        ExactnessShows(counts0, settings0, key, data);
      }
    }

    // With caching on, exact counts stay exact exactly if no file is read from disk, or an empty one.
    lemma ExactAfterSetting(
      counts0: map<File, int>, settings0: map<Holder, File>, key: Key, content: FileRead, disk_load: bool)
      requires disk_load ==> Matches(key) != [] && Matches(key)[0] in settings0
      requires forall f {:trigger Excess(counts, settings, f)} ::
                 Excess(counts, settings, f) == Excess(counts0, settings0, f) +
                   if !disk_load then 0
                   else
                     match content
                     case Unreadable => One(settings0[Matches(key)[0]] == f) as int
                     case Empty => 0
                     case Contents(_) => 0 - NamedAmong(settings0, Matches(key), f)
      ensures CountsExact(counts0, settings0) ==>
                (CountsExact(counts, settings) <==> !disk_load || content.Empty?)
    {
      if disk_load {
        FindShows(counts0, settings0, counts, settings, Matches(key), content);
      } else if CountsExact(counts0, settings0) {
        assert forall f: File :: Excess(counts0, settings0, f) == 0;
      }
    }

    // The record filed under the key.
    predicate Filed(key: Key, i: IconId)
      reads this
    {
      key in index && index[key] == i
    }

    // The icon is loaded.
    method SetFiled(key: Key, data: Option<File>)
      requires Ok() && key in index
      modifies `icons, `index, `pointing, `held, `settings, `counts, `disk, `misfired, `imagesHeld
      ensures Ok() && ShowsFor(key, data) && SameElsewhere(key, old(pointing), pointing)
      ensures forall j :: Count(held, j) == old(Count(held, j))
      ensures forall f {:trigger Excess(counts, settings, f)} ::
                Excess(counts, settings, f) == old(AfterUpdate(key, data, f))
      ensures (data.Some? ==> caching) && NeverShort(old(counts), old(settings)) ==> misfired == old(misfired)
      ensures data.None? ==> NonePoints(key, pointing)
      ensures Unaltered(old(icons), icons, Some(key)) && KeepsFiles(old(disk) + old(Written(data)))
      ensures imagesHeld == old(imagesHeld) && Uncached(old(icons[index[key]].img))
    {
      var i := index[key];
      SetData(i, data);
      AllShow(old(pointing), old(settings), key, i, data);
      PutAllElsewhere(key, old(pointing), if data.Some? then Some(i) else None);
      if data.None? {
        NonePointsAfter(key, old(pointing));
      }
    }

    ghost predicate NonePoints(key: Key, pointing: map<Holder, IconId>) {
      forall b :: b in Matches(key) ==> b !in pointing
    }

    lemma NonePointsAfter(key: Key, before: map<Holder, IconId>)
      requires pointing == PutAll(before, Matches(key), None)
      ensures NonePoints(key, pointing)
    {
      forall b | b in Matches(key) ensures b !in pointing {
        PutAllGet(before, Matches(key), None, b);
      }
    }

    // The icon is not loaded and gets its first image; the reference it came with is given back.
    method SetNewForUser(key: Key, data: File, content: FileRead)
      requires Ok() && key !in index
      modifies `icons, `index, `pointing, `held, `settings, `counts, `disk, `misfired, `imagesHeld, `next, `caching
      ensures Ok() && caching == old(caching)
      ensures ShowsFor(key, Some(data)) && SameElsewhere(key, old(pointing), pointing)
      ensures forall j :: Count(held, j) == old(Count(held, j)) + One(old(Leaks(key, content)) && Filed(key, j))
      ensures forall f {:trigger Excess(counts, settings, f)} ::
                Excess(counts, settings, f) == old(AfterNew(key, content, f))
      ensures !old(DiskLoad(key)) && caching && NeverShort(old(counts), old(settings)) ==> misfired == old(misfired)
      ensures Unaltered(old(icons), icons, Some(key)) && disk <= old(disk) + (if caching then {data} else {})
      ensures !old(DiskLoad(key)) ==> KeepsFiles(old(disk) + old(Written(Some(data))))
      ensures forall f ::
                Count(imagesHeld, f) == old(Count(imagesHeld, f)) + One(old(FoundImage(key, content)) == Some(f))
    {
      var i := NewIcon(key, data, content);
      label New:
      GiveBack(key, i, data, old(SettingsAfterFind(key, content)));
      KeptUnaltered(key, old(icons), old@New(icons), icons);
      if !old(DiskLoad(key)) {
        FilesKeptOn(old(disk) + old(Written(Some(data))), old@New(disk), disk,
                    old@New(icons), icons, pointers, imagesHeld);
      }
      OneGivenBack(key, i, old(Leaks(key, content)), old(held), old@New(held));
    }

    lemma OneGivenBack(key: Key, i: IconId, leaks: bool, held0: map<IconId, int>, held1: map<IconId, int>)
      requires Count(held1, i) == Count(held0, i) + (if leaks then 2 else 1) && Count(held0, i) >= 0
      requires forall j :: j != i ==> Count(held1, j) == Count(held0, j)
      requires held == held1[i := Count(held1, i) - 1] && (Count(held, i) > 0 ==> Filed(key, i))
      ensures forall j :: Count(held, j) == Count(held0, j) + One(leaks && Filed(key, j))
    {
      forall j ensures Count(held, j) == Count(held0, j) + One(leaks && Filed(key, j)) {
        assert j != i ==> Count(held, j) == Count(held1, j);
      }
    }

    // The reference that came with a new icon.
    method GiveBack(key: Key, i: IconId, data: File, ghost named: map<Holder, File>)
      requires Ok() && Count(held, i) > 0 && i in icons && icons[i].key == key && icons[i].img == Some(data)
      requires PointsTo(key, i) && (caching ==> settings == PutAll(named, Matches(key), Some(data)))
      modifies `icons, `index, `held, `disk, `misfired
      ensures Ok() && ShowsFor(key, Some(data)) && Kept(old(icons), icons) && KeepsFiles(old(disk))
      ensures held == old(held)[i := Count(old(held), i) - 1]
      ensures Count(held, i) > 0 ==> Filed(key, i)
      ensures NeverShort(counts, settings) ==> misfired == old(misfired)
    {
      ReleaseIcon(i);
      assert i in icons ==> Same(old(icons), icons, i);
      ShownAndNamed(named, key, i, data);
      assert RefOk(icons, pointing, held, i);
    }

    static lemma KeptUnaltered(
      key: Key, before: map<IconId, Icon>, shown: map<IconId, Icon>, after: map<IconId, Icon>)
      requires Unaltered(before, shown, Some(key)) && Kept(shown, after)
      ensures Unaltered(before, after, Some(key))
    {
      forall j | j in before && j in after && before[j].key != key ensures Same(before, after, j) {
        assert Same(before, shown, j) && Same(shown, after, j);
      }
    }

    lemma ShownAndNamed(named: map<Holder, File>, key: Key, i: IconId, data: File)
      requires Ok() && (i in icons ==> icons[i].key == key && icons[i].img == Some(data)) && PointsTo(key, i)
      requires caching ==> settings == PutAll(named, Matches(key), Some(data))
      ensures ShowsFor(key, Some(data))
    {
      forall b | b in Matches(key)
        ensures caching ==> Get(settings, b) == Some(data)
        ensures key in index && index[key] in icons && icons[index[key]].img == Some(data)
        ensures Get(pointing, b) == Some(index[key])
      {
        PutAllGet(named, Matches(key), Some(data), b);
        assert b in pointing && pointing[b] == i;
        NamedIsPositive(pointing, i);
        assert RefOk(icons, pointing, held, i);
      }
    }

    // From the tables to the buddies: somebody points at the icon, so its record is there.
    lemma AllShow(before: map<Holder, IconId>, named: map<Holder, File>, key: Key, i: IconId, data: Option<File>)
      requires Ok() && (i in icons ==> icons[i].key == key && icons[i].img == data)
      requires pointing == PutAll(before, Matches(key), if data.Some? then Some(i) else None)
      requires caching || data.None? ==> settings == PutAll(named, Matches(key), data)
      ensures ShowsFor(key, data)
    {
      forall b | b in Matches(key)
        ensures caching || data.None? ==> Get(settings, b) == data
        ensures data.Some? ==>
                  && key in index && index[key] in icons && icons[index[key]].img == data
                  && Get(pointing, b) == Some(index[key])
      {
        PutAllGet(before, Matches(key), if data.Some? then Some(i) else None, b);
        PutAllGet(named, Matches(key), data, b);
        NamedIsPositive(pointing, i);
        assert RefOk(icons, pointing, held, i);
      }
    }

    // The buddies' settings are dropped, and un-counted.
    method ForgetAll(list: seq<Holder>)
      modifies `settings, `counts
      ensures settings == PutAll(old(settings), list, None)
      ensures forall f {:trigger Excess(counts, settings, f)} ::
                Excess(counts, settings, f) == Excess(old(counts), old(settings), f)
    {
      assert list[..0] == [];
      for k := 0 to |list|
        invariant settings == PutAll(old(settings), list[..k], None)
        invariant forall f {:trigger Excess(counts, settings, f)} ::
                    Excess(counts, settings, f) == Excess(old(counts), old(settings), f)
      {
        assert list[..k + 1][..k] == list[..k] && list[..k + 1][k] == list[k];
        Rename(list[k], None);
      }
      assert list[..|list|] == list;
    }

    // purple_buddy_icons_set_account_icon() and purple_buddy_icons_node_set_custom_icon()
    method SetOwnIcon(h: Holder, data: Option<File>)
      modifies `settings, `counts, `disk, `misfired, `pointers
      ensures settings == Put(old(settings), h, if caching then data else None)
      ensures forall f {:trigger Excess(counts, settings, f)} ::
                Excess(counts, settings, f) == Excess(old(counts), old(settings), f)
      ensures NeverShort(old(counts), old(settings)) ==> misfired == old(misfired)
      ensures pointers == Put(old(pointers), h, data) && disk <= old(disk) + old(Written(data))
      ensures h in old(pointers) || h !in old(settings) ==> KeepsFiles(old(disk) + old(Written(data)))
      // the file of the old image goes with its last holder; one that was not loaded, if none names it
      ensures h in old(pointers) ==> Uncached(Some(old(pointers)[h]))
      ensures h !in old(pointers) && h in old(settings) && Count(counts, old(settings)[h]) == 0 ==>
                old(settings)[h] !in disk
    {
      var old_img := Get(pointers, h);
      if data.Some? {
        DataNew(data.value);
      }
      assert disk == old(disk) + old(Written(data));
      var old_icon := Get(settings, h);
      Rename(h, if caching then data else None);
      assert NeverShort(old(counts), old(settings)) ==> NeverShort(counts, settings);
      pointers := Put(pointers, h, data);
      if old_img.Some? {
        DropImage(old_img);
      } else if old_icon.Some? {
        assert NeverShort(counts, settings) ==> Excess(counts, settings, old_icon.value) >= 0;
        UncacheFile(old_icon.value);
      }
    }

    // ----- starting up -----

    // _purple_buddy_icons_account_loaded_cb() and _purple_buddy_icons_blist_loaded_cb(): settings
    // whose file is gone are dropped, the others counted.
    method LoadSettings(list: seq<Holder>, ghost done: seq<Holder>)
      requires Distinct(done + list)
      requires forall f: File :: Count(counts, f) == NamedAmong(settings, done, f)
      modifies `settings, `counts
      ensures forall f: File :: Count(counts, f) == NamedAmong(settings, done + list, f)
      ensures settings == OnDisk(old(settings), list, disk)
    {
      assert done + list[..0] == done && settings == OnDisk(settings, list[..0], disk);
      for k := 0 to |list|
        invariant forall f: File :: Count(counts, f) == NamedAmong(settings, done + list[..k], f)
        invariant settings == OnDisk(old(settings), list[..k], disk)
      {
        assert (done + list)[..|done| + k] == done + list[..k] && (done + list)[|done| + k] == list[k];
        LoadOne(list[k], done + list[..k]);
        assert done + list[..k + 1] == done + list[..k] + [list[k]];
      }
      assert list[..|list|] == list;
    }

    method LoadOne(h: Holder, ghost done: seq<Holder>)
      requires h !in done
      requires forall f: File :: Count(counts, f) == NamedAmong(settings, done, f)
      modifies `settings, `counts
      ensures forall f: File :: Count(counts, f) == NamedAmong(settings, done + [h], f)
      ensures settings == if h in old(settings) && old(settings)[h] !in disk then old(settings) - {h} else old(settings)
    {
      if h in settings {
        if settings[h] !in disk {
          settings := settings - {h};
        } else {
          RefFilename(settings[h]);
        }
      }
      forall f: File
        ensures NamedAmong(settings, done + [h], f) ==
                NamedAmong(old(settings), done, f) + One(Get(settings, h) == Some(f))
      {
        assert (done + [h])[..|done|] == done;
        NamedAmongFrame(old(settings), settings, done, f);
      }
    }

    // Everything is loaded once at start-up, with no file counted yet; then the counts are exact.
    method Startup(accounts: seq<Holder>, nodes: seq<Holder>)
      requires Distinct(accounts + nodes)
      requires forall h :: h in settings ==> h in accounts + nodes
      modifies `settings, `counts
      ensures CountsExact(counts, settings) && (old(Ok()) ==> Sound())
      ensures settings == map h | h in old(settings) && old(settings)[h] in disk :: old(settings)[h]
    {
      LoadAll(accounts, nodes);
      if old(Ok()) {
        StaysOk();
      }
    }

    method LoadAll(accounts: seq<Holder>, nodes: seq<Holder>)
      requires Distinct(accounts + nodes)
      requires forall h :: h in settings ==> h in accounts + nodes
      modifies `settings, `counts
      ensures CountsExact(counts, settings)
      ensures settings == map h | h in old(settings) && old(settings)[h] in disk :: old(settings)[h]
    {
      counts := map[];
      DistinctFront(accounts, nodes);
      LoadSettings(accounts, []);
      LoadSettings(nodes, accounts);
      AllCounted(counts, settings, accounts + nodes);
      OnDiskTwice(old(settings), accounts, nodes, disk);
    }

    // ----- over whole runs -----

    ghost predicate Sound()
      reads this
    {
      Ok() && CountsExact(counts, settings)
    }

    // A request for icons that are there, by callers that hold what they give back, and that does
    // not go to the disk.
    predicate Possible(r: Request)
      reads this
    {
      match r
      case ForUser(key, image) => image.None? || !DiskLoad(key)
      case Own(_, _) => true
      case Point(_, at) => at.Some? ==> at.value in icons
      case Fetch(key) => !DiskLoad(key)
      case Take(icon) => icon in icons
      case Give(icon) => Count(held, icon) > 0
      case Fill(icon, _) => icon in icons
      case TakeImage(_) => true
      case GiveImage(image) => Count(imagesHeld, image) > 0
    }

    twostate lemma StaysSound()
      requires old(Sound()) && Ok()
      requires forall f {:trigger Excess(counts, settings, f)} ::
                 Excess(counts, settings, f) == Excess(old(counts), old(settings), f)
      ensures Sound()
    {
      forall f: File ensures Excess(counts, settings, f) == 0 {
        assert Excess(old(counts), old(settings), f) == 0;
      }
    }

    method Do(r: Request)
      requires Sound() && caching && Possible(r)
      modifies `icons, `index, `pointing, `held, `settings, `counts, `disk, `misfired, `imagesHeld, `next, `caching
      modifies `pointers
      ensures Sound() && caching && misfired == old(misfired)
    {
      ExactIsNotShort(counts, settings);
      match r {
        case ForUser(key, image) =>
          SetForUser(key, image, Unreadable);
          StaysSound();
        case Own(holder, image) =>
          SetOwnIcon(holder, image);
          StaysOk();
          StaysSound();
        case Fill(icon, image) =>
          SetData(icon, image);
          StaysSound();
        case TakeImage(image) =>
          RefImage(image);
        case GiveImage(image) =>
          UnrefImage(image);
        case _ =>
          Pass(r);
          StaysSound();
      }
    }

    // Requests that only move references.
    method Pass(r: Request)
      requires Sound() && Possible(r) && (r.Point? || r.Fetch? || r.Take? || r.Give?)
      modifies `icons, `index, `pointing, `held, `settings, `counts, `disk, `misfired, `imagesHeld, `next, `caching
      ensures Ok() && caching == old(caching) && misfired == old(misfired)
      ensures settings == old(settings) && counts == old(counts)
    {
      ExactIsNotShort(counts, settings);
      match r {
        case Point(buddy, at) => SetBuddyIcon(buddy, at);
        case Fetch(key) => var _ := Find(key, Unreadable);
        case Take(icon) => RefIcon(icon);
        case Give(icon) => ReleaseIcon(icon);
      }
    }

    twostate lemma StaysOk()
      requires old(Ok()) && icons == old(icons) && index == old(index) && pointing == old(pointing)
      requires held == old(held) && next == old(next)
      ensures Ok()
    {}

    // Over any run outside the disk-load branch, with caching on: reference counts and index stay
    // exact, every file's count is the number of settings that name it, and no file is deleted
    // while a setting names it.
    method Run(requests: seq<Request>)
      requires Sound() && caching
      modifies `icons, `index, `pointing, `held, `settings, `counts, `disk, `misfired, `imagesHeld, `next, `caching
      modifies `pointers
      ensures Sound() && misfired == old(misfired)
    {
      for k := 0 to |requests|
        invariant Sound() && caching && misfired == old(misfired)
      {
        if Possible(requests[k]) {
          Do(requests[k]);
        }
      }
    }
  }

  // ----- what goes wrong -----

  const HER := Buddy(1)
  const BOB := Key(0, Name("Bob"))
  const LOWER_BOB := Key(0, Name("bob"))
  const OLD_FILE := File("old.png")
  const NEW_FILE := File("new.png")

  // A buddy that the buddy list finds under two spellings of its name.
  const SPELLINGS: map<Key, seq<Holder>> := map[BOB := [HER], LOWER_BOB := [HER]]

  lemma Spellings()
    ensures BOB != LOWER_BOB && OLD_FILE != NEW_FILE
  {
    assert BOB.username.text[0] != LOWER_BOB.username.text[0];
    assert OLD_FILE.name[0] != NEW_FILE.name[0];
  }

  // The icon is set under one spelling and cleared under the other: the buddy still points at it.
  method ClearingExample() returns (cache: IconCache)
    ensures fresh(cache) && cache.Ok() && cache.Matches(LOWER_BOB) == [HER] && HER in cache.pointing
  {
    Spellings();
    cache := new IconCache(SPELLINGS, map[], {}, true, true);
    cache.SetForUser(BOB, Some(NEW_FILE), Unreadable);
    assert HER in cache.Matches(BOB) && HER in cache.pointing;
    forall h | h in cache.pointing ensures h == HER {
      assert Get(cache.pointing, h) == Some(cache.pointing[h]);
    }
    OnlyHers(cache);
    cache.SetForUser(LOWER_BOB, None, Unreadable);
    assert HER in cache.Matches(LOWER_BOB);
  }

  lemma OnlyHers(cache: IconCache)
    requires cache.Ok() && BOB in cache.index && cache.index[BOB] in cache.icons
    requires forall h :: h in cache.pointing ==> cache.pointing[h] == cache.index[BOB]
    requires forall j :: Count(cache.held, j) == 0
    ensures LOWER_BOB !in cache.index
  {
    Spellings();
    if LOWER_BOB in cache.index {
      var j := cache.index[LOWER_BOB];
      assert RefOk(cache.icons, cache.pointing, cache.held, j);
      NamedIsPositive(cache.pointing, j);
    }
  }

  // With caching switched off another image is shown: the old file is un-counted, still named.
  method LossExample() returns (cache: IconCache)
    ensures fresh(cache) && cache.Ok() && !CountsExact(cache.counts, cache.settings)
  {
    Spellings();
    cache := new IconCache(SPELLINGS, map[], {}, true, true);
    NothingCounted(cache.counts, cache.settings);
    cache.SetForUser(BOB, Some(OLD_FILE), Unreadable);
    assert HER in cache.Matches(BOB) && HER in cache.settings;
    SwitchOff(cache);
    cache.SetForUser(BOB, Some(NEW_FILE), Unreadable);
  }

  // purple_buddy_icons_set_caching(FALSE)
  method SwitchOff(cache: IconCache)
    requires cache.Ok()
    modifies cache`caching
    ensures cache.Ok() && !cache.caching
  {
    cache.caching := false;
    forall i ensures RefOk(cache.icons, cache.pointing, cache.held, i) {
      assert old(RefOk(cache.icons, cache.pointing, cache.held, i));
    }
  }

  lemma NothingCounted(counts: map<File, int>, settings: map<Holder, File>)
    requires counts == map[] && settings == map[]
    ensures CountsExact(counts, settings)
  {
    forall f: File ensures Excess(counts, settings, f) == 0 {
      assert Namers(settings, f) == {};
    }
  }

  // An icon that is loaded gets another image by purple_buddy_icon_new(): nothing names or shows
  // the old one any more, and still it counts as held.
  method LeakExample() returns (cache: IconCache)
    ensures fresh(cache) && cache.Ok() && Count(cache.imagesHeld, OLD_FILE) == 1
    ensures cache.pointers == map[] && forall h :: h in cache.settings ==> cache.settings[h] != OLD_FILE
    ensures forall i :: i in cache.icons ==> cache.icons[i].img != Some(OLD_FILE)
  {
    Spellings();
    cache := new IconCache(SPELLINGS, map[], {}, true, true);
    assert cache.Matches(BOB) == [HER];
    var i := cache.NewIcon(BOB, OLD_FILE, Unreadable);
    var j := cache.NewIcon(BOB, NEW_FILE, Unreadable);
    assert j == i;
    forall h | h in cache.pointing ensures cache.pointing[h] == i {
      assert Get(cache.pointing, h) == Some(cache.pointing[h]);
      assert h == HER;
    }
    OnlyOneIcon(cache, i);
  }

  lemma OnlyOneIcon(cache: IconCache, i: IconId)
    requires cache.Ok() && forall h :: h in cache.pointing ==> cache.pointing[h] == i
    requires forall j :: j != i ==> Count(cache.held, j) == 0
    ensures forall j :: j in cache.icons ==> j == i
  {
    forall j | j in cache.icons ensures j == i {
      assert RefOk(cache.icons, cache.pointing, cache.held, j);
      NamedIsPositive(cache.pointing, j);
    }
  }

  // The file of a buddy's icon is read from disk: it is un-counted, still named.
  method FindExample() returns (cache: IconCache)
    ensures fresh(cache) && cache.Ok() && !CountsExact(cache.counts, cache.settings)
  {
    cache := new IconCache(SPELLINGS, map[HER := OLD_FILE], {OLD_FILE}, true, true);
    cache.Startup([], [HER]);
    assert cache.DiskLoad(BOB);
    var _ := cache.Find(BOB, Contents(OLD_FILE));
  }
}
