/**
  * Off-screen images that files create, share and release. An image has up to eight owners; only a
  * sole owner may change it.
  */
module Images {
  import opened MachineTypes

  type File = nat

  const MAX_OWNERS := 8
  const NULL: File := 0

  datatype Desc = Desc(pbuffer: U32, handle: U32, width: U32, height: U32, offset: U32, format: seq<U32>)

  // What the host and the object tables answer while a call runs.
  datatype Answers = Answers(
    memory: bool,
    pbuffer: U32,           // a new pbuffer, 0 if the host refuses
    recreated: U32,         // the pbuffer of a format change
    objects: map<U32, nat>) // the caller's graphics objects by handle, never null

  // prlGo is the bound graphics object, 0 if there is none; a free owner slot holds NULL.
  datatype Image = Image(desc: Desc, prlGo: nat, numOwners: nat, owners: seq<File>)

  datatype Status = Ok | Invalid | NotFound

  function Filled(owners: seq<File>): nat {
    if owners == [] then 0 else Filled(owners[1..]) + if owners[0] != NULL then 1 else 0
  }

  ghost predicate ImageOk(img: Image) {
    && |img.owners| == MAX_OWNERS
    && (forall i, j | 0 <= i < j < MAX_OWNERS && img.owners[i] != NULL :: img.owners[i] != img.owners[j])
    && img.numOwners == Filled(img.owners) && 1 <= img.numOwners
    && img.desc.pbuffer != 0 && img.desc.width != 0 && img.desc.height != 0
    && (img.prlGo != 0 <==> img.desc.handle != 0)
  }

  ghost predicate AllOk(images: seq<Image>) {
    && (forall i | 0 <= i < |images| :: ImageOk(images[i]))
    && (forall i, j | 0 <= i < j < |images| :: images[i].desc.pbuffer != images[j].desc.pbuffer)
  }

  // The file owns an image that looks like this.
  ghost predicate Sees(images: seq<Image>, file: File, desc: Desc, prlGo: nat) {
    exists i :: 0 <= i < |images| && Shows(images[i], file, desc, prlGo)
  }

  ghost predicate Shows(img: Image, file: File, desc: Desc, prlGo: nat) {
    file in img.owners && img.desc == desc && img.prlGo == prlGo
  }

  // No file but this one gains, loses or sees changed any image.
  ghost predicate OthersUnaffected(was: seq<Image>, now: seq<Image>, file: File) {
    forall f, desc, prlGo | f != NULL && f != file :: Sees(was, f, desc, prlGo) <==> Sees(now, f, desc, prlGo)
  }

  lemma {:induction false} FilledSet(owners: seq<File>, i: nat, file: File)
    requires i < |owners|
    ensures Filled(owners[i := file]) + (if owners[i] != NULL then 1 else 0) ==
            Filled(owners) + (if file != NULL then 1 else 0)
  {
    if i > 0 {
      FilledSet(owners[1..], i - 1, file);
      assert owners[i := file][1..] == owners[1..][i - 1 := file];
    } else {
      assert owners[0 := file][1..] == owners[1..];
    }
  }

  lemma {:induction false} FilledBounds(owners: seq<File>)
    ensures Filled(owners) <= |owners|
    ensures Filled(owners) == |owners| <==> NULL !in owners
    ensures Filled(owners) == 0 ==> forall j | 0 <= j < |owners| :: owners[j] == NULL
  {
    if owners != [] {
      FilledBounds(owners[1..]);
      assert forall j | 0 < j < |owners| :: owners[j] == owners[1..][j - 1];
    }
  }

  /** An image with one owner has no other. */
  lemma SoleOwner(img: Image, i: nat, file: File)
    requires ImageOk(img) && img.numOwners == 1 && i < MAX_OWNERS && img.owners[i] != NULL
    requires file in img.owners && file != NULL
    ensures file == img.owners[i]
  {
    var rest := img.owners[i := NULL];
    FilledSet(img.owners, i, NULL);
    FilledBounds(rest);
    var j :| 0 <= j < MAX_OWNERS && img.owners[j] == file;
    assert rest[j] == if j == i then NULL else file;
  }

  // The image without the owner in this slot.
  function Dropped(img: Image, idx: nat): Image
    requires idx < |img.owners| && img.numOwners > 0
  {
    img.(owners := img.owners[idx := NULL], numOwners := img.numOwners - 1)
  }

  lemma DropKeepsOk(img: Image, idx: nat)
    requires ImageOk(img) && idx < MAX_OWNERS && img.owners[idx] != NULL && img.numOwners > 1
    ensures ImageOk(Dropped(img, idx))
    ensures forall f | f != NULL :: f in Dropped(img, idx).owners <==> f in img.owners && f != img.owners[idx]
  {
    FilledSet(img.owners, idx, NULL);
    var after := Dropped(img, idx).owners;
    forall f | f != NULL ensures f in after <==> f in img.owners && f != img.owners[idx] {
      if f in img.owners && f != img.owners[idx] {
        var j :| 0 <= j < MAX_OWNERS && img.owners[j] == f;
        assert after[j] == f;
      }
    }
  }

  lemma JoinKeepsOk(img: Image, idx: nat, file: File)
    requires ImageOk(img) && idx < MAX_OWNERS && img.owners[idx] == NULL
    requires file != NULL && file !in img.owners
    ensures var joined := img.(owners := img.owners[idx := file], numOwners := img.numOwners + 1);
            ImageOk(joined) && forall f | f != NULL :: f in joined.owners <==> f in img.owners || f == file
  {
    FilledSet(img.owners, idx, file);
    var after := img.owners[idx := file];
    assert after[idx] == file;
    forall f | f != NULL ensures f in after <==> f in img.owners || f == file {
      if f in img.owners {
        var j :| 0 <= j < MAX_OWNERS && img.owners[j] == f;
        assert after[j] == f;
      }
    }
  }

  /** Replacing an image by one that others see alike. */
  lemma ReplaceUnaffected(images: seq<Image>, i: nat, img: Image, file: File)
    requires AllOk(images) && i < |images| && ImageOk(img) && img.desc.pbuffer == images[i].desc.pbuffer
    requires forall f, desc, prlGo | f != NULL && f != file ::
               Shows(images[i], f, desc, prlGo) <==> Shows(img, f, desc, prlGo)
    ensures AllOk(images[i := img]) && OthersUnaffected(images, images[i := img], file)
  {
    var now := images[i := img];
    forall f, desc, prlGo | f != NULL && f != file
      ensures Sees(images, f, desc, prlGo) <==> Sees(now, f, desc, prlGo)
    {
      if j :| 0 <= j < |images| && Shows(images[j], f, desc, prlGo) {
        assert Shows(now[j], f, desc, prlGo);
      }
      if j :| 0 <= j < |now| && Shows(now[j], f, desc, prlGo) {
        assert Shows(images[j], f, desc, prlGo);
      }
    }
  }

  /** Adding or removing an image nobody else owns. */
  lemma AddUnaffected(images: seq<Image>, img: Image, file: File)
    requires AllOk(images) && ImageOk(img)
    requires forall i | 0 <= i < |images| :: images[i].desc.pbuffer != img.desc.pbuffer
    requires forall f | f in img.owners :: f == NULL || f == file
    ensures AllOk([img] + images) && OthersUnaffected(images, [img] + images, file)
  {
    var now := [img] + images;
    forall f, desc, prlGo | f != NULL && f != file
      ensures Sees(images, f, desc, prlGo) <==> Sees(now, f, desc, prlGo)
    {
      if j :| 0 <= j < |images| && Shows(images[j], f, desc, prlGo) {
        assert Shows(now[j + 1], f, desc, prlGo);
      }
    }
  }

  lemma RemoveUnaffected(images: seq<Image>, i: nat, file: File)
    requires AllOk(images) && i < |images|
    requires forall f | f in images[i].owners :: f == NULL || f == file
    ensures AllOk(images[..i] + images[i + 1..])
    ensures OthersUnaffected(images, images[..i] + images[i + 1..], file)
  {
    var now := images[..i] + images[i + 1..];
    forall j | 0 <= j < |now| ensures now[j] == images[if j < i then j else j + 1] {
    }
    forall f, desc, prlGo | f != NULL && f != file
      ensures Sees(images, f, desc, prlGo) <==> Sees(now, f, desc, prlGo)
    {
      if j :| 0 <= j < |images| && Shows(images[j], f, desc, prlGo) {
        assert now[if j < i then j else j - 1] == images[j];
      }
      if j :| 0 <= j < |now| && Shows(now[j], f, desc, prlGo) {
        assert Shows(images[if j < i then j else j + 1], f, desc, prlGo);
      }
    }
  }

  method FindOwner(img: Image, file: File) returns (idx: nat)
    requires |img.owners| == MAX_OWNERS
    ensures idx <= MAX_OWNERS
    ensures idx == MAX_OWNERS <==> file !in img.owners
    ensures idx < MAX_OWNERS ==> img.owners[idx] == file
  {
    idx := 0;
    while idx < MAX_OWNERS && img.owners[idx] != file
      invariant idx <= MAX_OWNERS
      invariant forall j | 0 <= j < idx :: img.owners[j] != file
    {
      idx := idx + 1;
    }
  }

  class Device {
    var images: seq<Image>

    ghost predicate Valid()
      reads this
    {
      AllOk(images)
    }

    constructor ()
      ensures Valid() && images == []
    {
      images := [];
    }

    // Ends the ownership of the i-th image by the file in this slot: the image goes with its last owner.
    method Drop(i: nat, idx: nat, file: File) returns (removed: bool)
      requires Valid() && i < |images| && idx < MAX_OWNERS
      requires images[i].owners[idx] == file && file != NULL
      modifies this
      ensures Valid() && OthersUnaffected(old(images), images, file)
      ensures removed <==> old(images)[i].numOwners == 1
      ensures removed ==> images == old(images)[..i] + old(images)[i + 1..]
      ensures !removed ==> images == old(images)[i := Dropped(old(images)[i], idx)] && file !in images[i].owners
    {
      var img := images[i];
      if img.numOwners == 1 {
        forall f | f in img.owners ensures f == NULL || f == file {
          if f != NULL {
            SoleOwner(img, idx, f);
          }
        }
        RemoveUnaffected(images, i, file);
        images := images[..i] + images[i + 1..];
        return true;
      }
      DropKeepsOk(img, idx);
      ReplaceUnaffected(images, i, Dropped(img, idx), file);
      images := images[i := Dropped(img, idx)];
      return false;
    }

    /** prl_drm_image_release_ioctl: gives up the named image if the caller owns it. */
    method Release(file: File, pbuffer: U32) returns (status: Status)
      requires Valid() && file != NULL
      modifies this
      ensures Valid() && OthersUnaffected(old(images), images, file)
      ensures status == if pbuffer == 0 then Invalid else if Owns(old(images), file, pbuffer) then Ok else NotFound
      ensures status.Ok? ==> forall desc, prlGo ::
                Sees(images, file, desc, prlGo) <==> Sees(old(images), file, desc, prlGo) && desc.pbuffer != pbuffer
      ensures !status.Ok? ==> images == old(images)
    {
      if pbuffer == 0 {
        return Invalid;
      }
      for i := 0 to |images|
        invariant images == old(images)
        invariant forall j | 0 <= j < i :: images[j].desc.pbuffer != pbuffer
      {
        if images[i].desc.pbuffer == pbuffer {
          var idx := FindOwner(images[i], file);
          if idx == MAX_OWNERS {
            return NotFound;
          }
          var removed := Drop(i, idx, file);
          DropLoses(old(images), i, file, images, removed);
          return Ok;
        }
      }
      return NotFound;
    }

    // Changes the i-th image, of which the caller is the only owner, or answers why not.
    method Update(i: nat, file: File, request: Desc, answers: Answers) returns (status: Status)
      requires Valid() && i < |images| && file != NULL
      requires file in images[i].owners && images[i].numOwners == 1
      requires request.pbuffer == images[i].desc.pbuffer && request.width != 0 && request.height != 0
      requires AnswersOk(answers)
      modifies this
      ensures Valid() && OthersUnaffected(old(images), images, file)
      ensures |images| == |old(images)| && images == old(images)[i := images[i]]
      ensures images[i].owners == old(images)[i].owners && images[i].numOwners == 1
      ensures status.Ok? || (status.NotFound? && images == old(images))
      ensures status.Ok? ==> images[i].desc == Settled(old(images)[i], request)
      ensures status.Ok? ==> images[i].prlGo == Bound(old(images)[i].prlGo, images[i].desc.handle, answers)
      ensures status.NotFound? <==> CannotUpdate(old(images)[i], request, answers)
      ensures images[i].desc.pbuffer == request.pbuffer
      ensures forall desc, prlGo :: Sees(images, file, desc, prlGo) <==>
                (Sees(old(images), file, desc, prlGo) && desc.pbuffer != request.pbuffer) ||
                (desc == images[i].desc && prlGo == images[i].prlGo)
    {
      SetGains(images, i, images[i], file);
      assert images[i := images[i]] == images;
      var img, desc := images[i], request;
      var prlGo := img.prlGo;
      if desc.handle != img.desc.handle {
        if prlGo == 0 {
          if desc.handle !in answers.objects {
            return NotFound;
          }
          prlGo := answers.objects[desc.handle];
        } else if desc.handle == 0 {
          prlGo := 0;
        }
      } else if desc.width != img.desc.width || desc.height != img.desc.height || desc.offset != img.desc.offset {
        prlGo := 0;
        desc := desc.(handle := 0);
      } else if desc.format != img.desc.format {
        if answers.recreated != img.desc.pbuffer {
          return NotFound;
        }
      }
      var changed := img.(desc := desc, prlGo := prlGo);
      forall f | f in img.owners && f != NULL ensures f == file {
        var k :| 0 <= k < MAX_OWNERS && img.owners[k] == file;
        SoleOwner(img, k, f);
      }
      ReplaceUnaffected(images, i, changed, file);
      SetGains(images, i, changed, file);
      images := images[i := changed];
      return Ok;
    }

    // Makes a new image, unless there is no memory, the host refuses or the handle is unknown.
    method CreateImage(file: File, request: Desc, answers: Answers) returns (img: Image, made: bool)
      requires Valid() && file != NULL && request.width != 0 && request.height != 0
      requires AnswersOk(answers) && FreshFor(images, answers)
      modifies this
      ensures Valid() && OthersUnaffected(old(images), images, file)
      ensures made <==> !CannotCreate(request, answers)
      ensures made ==>
        && images == [img] + old(images)
        && img.desc == request.(pbuffer := answers.pbuffer) && file in img.owners
        && img.prlGo == Bound(0, request.handle, answers)
      ensures !made ==> images == old(images)
    {
      img := Image(request.(pbuffer := answers.pbuffer), 0, 1, [file, NULL, NULL, NULL, NULL, NULL, NULL, NULL]);
      if !answers.memory || answers.pbuffer == 0 {
        return img, false;
      }
      if request.handle != 0 {
        if request.handle !in answers.objects {
          return img, false;
        }
        img := img.(prlGo := answers.objects[request.handle]);
      }
      NewImageOk(img, file);
      AddUnaffected(images, img, file);
      images := [img] + images;
      return img, true;
    }

    // Drops the caller's share of the i-th image and makes a new image.
    method Replace(i: nat, idx: nat, file: File, request: Desc, answers: Answers) returns (img: Image, made: bool)
      requires Valid() && i < |images| && idx < MAX_OWNERS && images[i].numOwners > 1
      requires images[i].owners[idx] == file && file != NULL
      requires request.width != 0 && request.height != 0
      requires AnswersOk(answers) && FreshFor(images, answers)
      modifies this
      ensures Valid() && OthersUnaffected(old(images), images, file)
      ensures made ==>
        && img.desc == request.(pbuffer := answers.pbuffer) && img.prlGo == Bound(0, request.handle, answers)
      ensures made <==> !CannotCreate(request, answers)
      ensures forall desc, prlGo :: Sees(images, file, desc, prlGo) <==>
                (Sees(old(images), file, desc, prlGo) && desc.pbuffer != old(images)[i].desc.pbuffer) ||
                (made && desc == img.desc && prlGo == img.prlGo)
    {
      var removed := Drop(i, idx, file);
      DropLoses(old(images), i, file, images, removed);
      ghost var between := images;
      img, made := CreateImage(file, request, answers);
      if made {
        AddGains(between, img, file);
      }
    }

    // Enters the caller in a free slot of the i-th image.
    method Export(i: nat, idx: nat, file: File)
      requires Valid() && i < |images| && idx < MAX_OWNERS && images[i].owners[idx] == NULL
      requires file != NULL && file !in images[i].owners
      modifies this
      ensures Valid() && OthersUnaffected(old(images), images, file)
      ensures |images| == |old(images)| && images[i].desc == old(images)[i].desc
      ensures images[i].prlGo == old(images)[i].prlGo && file in images[i].owners
      ensures forall desc, prlGo :: Sees(images, file, desc, prlGo) <==>
                Sees(old(images), file, desc, prlGo) || (desc == images[i].desc && prlGo == images[i].prlGo)
    {
      var img := images[i];
      var joined := img.(owners := img.owners[idx := file], numOwners := img.numOwners + 1);
      JoinKeepsOk(img, idx, file);
      ReplaceUnaffected(images, i, joined, file);
      images := images[i := joined];
      SetGains(old(images), i, joined, file);
      NotSeen(old(images), i, file);
    }

    /**
      * prl_drm_image_create_ioctl. Whatever the request, other files keep their images as they are,
      * and the caller's change by exactly this: it gives up a shared image it asks to change, and
      * sees the image it is answered with.
      */
    method Create(file: File, request: Desc, answers: Answers) returns (status: Status, reply: Desc)
      requires Valid() && file != NULL
      requires AnswersOk(answers) && FreshFor(images, answers)
      modifies this
      ensures Valid() && OthersUnaffected(old(images), images, file)
      ensures status.Invalid? <==> request.width == 0 || request.height == 0
      ensures status.Invalid? ==> images == old(images)
      ensures !status.Ok? ==> reply == request
      ensures status.NotFound? <==>
        request.width != 0 && request.height != 0 && CreateFails(old(images), file, request, answers)
      ensures status.Ok? ==> reply == Answer(old(images), file, request, answers).0 && SameShape(reply, request)
      ensures !status.Invalid? && NamesForeign(old(images), file, request.pbuffer) ==>
                status.NotFound? && images == old(images)
      ensures !status.Invalid? ==> forall desc: Desc, prlGo: nat :: Sees(images, file, desc, prlGo) <==>
                || (&& Sees(old(images), file, desc, prlGo) && !GivesUp(old(images), file, request, desc.pbuffer)
                    && !(status.Ok? && desc.pbuffer == reply.pbuffer))
                || (status.Ok? && (desc, prlGo) == Answer(old(images), file, request, answers))
    {
      hide Sees, CannotUpdate, CannotCreate, CreateFails, Answer;
      status, reply := Ok, request;
      if request.width == 0 || request.height == 0 {
        return Invalid, reply;
      }
      ghost var settled := false;
      for i := 0 to |images|
        invariant Valid() && images == old(images)
        invariant forall j | 0 <= j < i && images[j].desc.pbuffer == request.pbuffer :: file !in images[j].owners
        invariant status.NotFound? <==> exists j :: 0 <= j < i && images[j].desc.pbuffer == request.pbuffer
        invariant forall j | 0 <= j < i :: !Like(images[j], request)
        invariant !status.Invalid? && reply == request && !settled
        invariant status.NotFound? ==> CreateFails(images, file, request, answers)
      {
        var img := images[i];
        if Decides(images, i, request) {
          DecidedBy(images, i, file, request, answers);
        }
        if request.pbuffer == img.desc.pbuffer {
          var idx := FindOwner(img, file);
          if idx != MAX_OWNERS {
            if img.numOwners == 1 {
              status := Update(i, file, request, answers);
              return status, if status.Ok? then images[i].desc else request;
            }
            if request.handle != img.desc.handle || request.width != img.desc.width ||
               request.height != img.desc.height || request.offset != img.desc.offset ||
               request.format != img.desc.format {
              var made;
              img, made := Replace(i, idx, file, request, answers);
              NotNamed(old(images), answers.pbuffer, file);
              assert Shared(old(images)[i], file, request);
              return if made then Ok else NotFound, if made then img.desc else request;
            }
            SetGains(images, i, img, file);
            assert images[i := img] == images;
            return Ok, img.desc;
          }
          status := NotFound;
        } else if request.pbuffer == 0 && request.handle == img.desc.handle &&
                  request.width == img.desc.width && request.height == img.desc.height &&
                  request.offset == img.desc.offset {
          var idx := FindOwner(img, file);
          if idx != MAX_OWNERS {
            settled := true;
            break;
          }
          idx := FindOwner(img, NULL);
          if idx == MAX_OWNERS {
            return NotFound, reply;
          }
          NotSeen(images, i, file);
          Export(i, idx, file);
          return Ok, images[i].desc;
        }
      }
      if status.Ok? {
        if !settled {
          Undecided(images, file, request, answers);
        }
        var img, made := CreateImage(file, request, answers);
        if !made {
          return NotFound, reply;
        }
        AddGains(old(images), img, file);
        NotNamed(old(images), img.desc.pbuffer, file);
        reply := img.desc;
      }
    }

    /** Closing a file leaves it no image and touches nobody else's. */
    method PostClose(file: File)
      requires Valid() && file != NULL
      modifies this
      ensures Valid() && OthersUnaffected(old(images), images, file)
      ensures forall i | 0 <= i < |images| :: file !in images[i].owners
    {
      var i := 0;
      while i < |images|
        invariant Valid() && OthersUnaffected(old(images), images, file)
        invariant i <= |images| && forall j | 0 <= j < i :: file !in images[j].owners
        decreases |images| - i
      {
        var idx := FindOwner(images[i], file);
        var removed := false;
        if idx != MAX_OWNERS {
          removed := Drop(i, idx, file);
        }
        if !removed {
          i := i + 1;
        }
      }
    }
  }

  // Objects the lookup finds are not null.
  ghost predicate AnswersOk(answers: Answers) {
    forall handle | handle in answers.objects :: answers.objects[handle] != 0 && handle != 0
  }

  // A pbuffer the host makes is none of those in use.
  ghost predicate FreshFor(images: seq<Image>, answers: Answers) {
    forall i | 0 <= i < |images| :: images[i].desc.pbuffer != answers.pbuffer
  }

  // What the description of an image becomes: moving or resizing an image unbinds it.
  ghost function Settled(img: Image, request: Desc): Desc {
    if request.handle == img.desc.handle && !SameShape(img.desc, request) then request.(handle := 0) else request
  }

  // The object of an image with this handle: an image keeps the object it has until it is unbound,
  // also when its handle changes.
  ghost function Bound(prlGo: nat, handle: U32, answers: Answers): nat {
    if handle == 0 then 0
    else if prlGo != 0 then prlGo
    else if handle in answers.objects then answers.objects[handle]
    else 0
  }

  ghost predicate SameShape(a: Desc, b: Desc) {
    a.width == b.width && a.height == b.height && a.offset == b.offset
  }

  // The sole owner asks to bind an unknown object, or for a format the host does not give.
  ghost predicate CannotUpdate(img: Image, request: Desc, answers: Answers) {
    if request.handle != img.desc.handle then
      img.prlGo == 0 && request.handle !in answers.objects
    else
      SameShape(img.desc, request) && request.format != img.desc.format && answers.recreated != img.desc.pbuffer
  }

  lemma NewImageOk(img: Image, file: File)
    requires file != NULL && img.numOwners == 1
    requires img.owners == [file, NULL, NULL, NULL, NULL, NULL, NULL, NULL]
    requires img.desc.pbuffer != 0 && img.desc.width != 0 && img.desc.height != 0
    requires img.prlGo != 0 <==> img.desc.handle != 0
    ensures ImageOk(img) && forall f | f in img.owners :: f == NULL || f == file
  {
    var none := [NULL, NULL, NULL, NULL, NULL, NULL, NULL, NULL];
    FilledSet(none, 0, file);
    FilledNone(none);
    assert none[0 := file] == img.owners;
  }

  lemma {:induction false} FilledNone(owners: seq<File>)
    requires forall j | 0 <= j < |owners| :: owners[j] == NULL
    ensures Filled(owners) == 0
  {
    if owners != [] {
      FilledNone(owners[1..]);
    }
  }

  // The descriptions say different things about an image, whatever its name.
  ghost predicate Differs(a: Desc, b: Desc) {
    a.(pbuffer := b.pbuffer) != b
  }

  // The name is that of an image the file does not own.
  ghost predicate NamesForeign(images: seq<Image>, file: File, pbuffer: U32) {
    exists i :: 0 <= i < |images| && images[i].desc.pbuffer == pbuffer && file !in images[i].owners
  }

  // The file asks to change an image it owns with others.
  ghost predicate GivesUp(images: seq<Image>, file: File, request: Desc, pbuffer: U32) {
    pbuffer == request.pbuffer && exists i :: 0 <= i < |images| && Shared(images[i], file, request)
  }

  ghost predicate Shared(img: Image, file: File, request: Desc) {
    img.desc.pbuffer == request.pbuffer && file in img.owners && img.numOwners > 1 && Differs(img.desc, request)
  }

  // What stands in the way of a new image.
  ghost predicate CannotCreate(request: Desc, answers: Answers) {
    !answers.memory || answers.pbuffer == 0 || (request.handle != 0 && request.handle !in answers.objects)
  }

  // The image that is asked for without a name.
  ghost predicate Like(img: Image, request: Desc) {
    request.pbuffer == 0 && request.handle == img.desc.handle && SameShape(request, img.desc)
  }

  // The image on which a request turns: the one it names, or the first it is like.
  ghost predicate Decides(images: seq<Image>, i: nat, request: Desc) {
    && i < |images|
    && (|| images[i].desc.pbuffer == request.pbuffer
        || (Like(images[i], request) && forall j | 0 <= j < i :: !Like(images[j], request)))
  }

  // A named image must be the caller's, and then what it asks of it must be possible; one that is
  // only alike must have a free slot, if the caller does not own it already.
  ghost predicate FailsOn(img: Image, file: File, request: Desc, answers: Answers) {
    if img.desc.pbuffer == request.pbuffer then
      if file !in img.owners then true
      else if img.numOwners == 1 then CannotUpdate(img, request, answers)
      else Differs(img.desc, request) && CannotCreate(request, answers)
    else if file in img.owners then CannotCreate(request, answers)
    else NULL !in img.owners
  }

  ghost predicate CreateFails(images: seq<Image>, file: File, request: Desc, answers: Answers) {
    if exists i: nat :: Decides(images, i, request) then
      exists i: nat :: Decides(images, i, request) && FailsOn(images[i], file, request, answers)
    else
      CannotCreate(request, answers)
  }

  // The description a caller is answered with, and the object bound to the image: that of a new
  // image made to the request, the settled request when a sole owner changes its image, or the
  // image's own when there is nothing to change or the caller joins it.
  ghost function NewAnswer(request: Desc, answers: Answers): (Desc, nat) {
    (request.(pbuffer := answers.pbuffer), Bound(0, request.handle, answers))
  }

  ghost function AnswerOn(img: Image, file: File, request: Desc, answers: Answers): (Desc, nat) {
    if img.desc.pbuffer == request.pbuffer then
      if img.numOwners == 1 then
        (Settled(img, request), Bound(img.prlGo, Settled(img, request).handle, answers))
      else if Differs(img.desc, request) then NewAnswer(request, answers)
      else (img.desc, img.prlGo)
    else if file in img.owners then NewAnswer(request, answers)
    else (img.desc, img.prlGo)
  }

  ghost function Answer(images: seq<Image>, file: File, request: Desc, answers: Answers): (Desc, nat) {
    if i: nat :| Decides(images, i, request) then AnswerOn(images[i], file, request, answers)
    else NewAnswer(request, answers)
  }

  lemma DecidedBy(images: seq<Image>, i: nat, file: File, request: Desc, answers: Answers)
    requires AllOk(images) && Decides(images, i, request)
    ensures CreateFails(images, file, request, answers) <==> FailsOn(images[i], file, request, answers)
    ensures Answer(images, file, request, answers) == AnswerOn(images[i], file, request, answers)
  {
    forall j: nat | Decides(images, j, request) ensures j == i {
      assert ImageOk(images[i]) && ImageOk(images[j]);
    }
  }

  lemma Undecided(images: seq<Image>, file: File, request: Desc, answers: Answers)
    requires forall i | 0 <= i < |images| ::
               images[i].desc.pbuffer != request.pbuffer && !Like(images[i], request)
    ensures CreateFails(images, file, request, answers) <==> CannotCreate(request, answers)
    ensures Answer(images, file, request, answers) == NewAnswer(request, answers)
  {
  }

  lemma AddGains(was: seq<Image>, img: Image, file: File)
    requires file in img.owners
    ensures forall desc, prlGo :: Sees([img] + was, file, desc, prlGo) <==>
              Sees(was, file, desc, prlGo) || (desc == img.desc && prlGo == img.prlGo)
  {
    var now := [img] + was;
    forall desc, prlGo
      ensures Sees(now, file, desc, prlGo) <==>
                Sees(was, file, desc, prlGo) || (desc == img.desc && prlGo == img.prlGo)
    {
      assert Shows(now[0], file, img.desc, img.prlGo);
      if j :| 0 <= j < |was| && Shows(was[j], file, desc, prlGo) {
        assert now[j + 1] == was[j];
      }
    }
  }

  lemma SetGains(was: seq<Image>, i: nat, img: Image, file: File)
    requires AllOk(was) && i < |was| && file in img.owners && img.desc.pbuffer == was[i].desc.pbuffer
    ensures forall desc, prlGo :: Sees(was[i := img], file, desc, prlGo) <==>
              (Sees(was, file, desc, prlGo) && desc.pbuffer != img.desc.pbuffer) ||
              (desc == img.desc && prlGo == img.prlGo)
  {
    var now := was[i := img];
    forall desc, prlGo
      ensures Sees(now, file, desc, prlGo) <==>
                (Sees(was, file, desc, prlGo) && desc.pbuffer != img.desc.pbuffer) ||
                (desc == img.desc && prlGo == img.prlGo)
    {
      assert Shows(now[i], file, img.desc, img.prlGo);
      if j :| 0 <= j < |was| && Shows(was[j], file, desc, prlGo) && desc.pbuffer != img.desc.pbuffer {
        assert now[j] == was[j];
      }
      if j :| 0 <= j < |now| && Shows(now[j], file, desc, prlGo) && j != i {
        assert was[j] == now[j] && desc.pbuffer != was[i].desc.pbuffer;
      }
    }
  }

  // What a file does not own it does not see.
  lemma NotSeen(images: seq<Image>, i: nat, file: File)
    requires AllOk(images) && i < |images| && file !in images[i].owners
    ensures forall desc, prlGo | Sees(images, file, desc, prlGo) :: desc.pbuffer != images[i].desc.pbuffer
  {
  }

  lemma NotNamed(images: seq<Image>, pbuffer: U32, file: File)
    requires forall i | 0 <= i < |images| :: images[i].desc.pbuffer != pbuffer
    ensures forall desc, prlGo | Sees(images, file, desc, prlGo) :: desc.pbuffer != pbuffer
  {
  }

  ghost predicate Owns(images: seq<Image>, file: File, pbuffer: U32) {
    exists i :: 0 <= i < |images| && file in images[i].owners && images[i].desc.pbuffer == pbuffer
  }

  lemma DropLoses(was: seq<Image>, i: nat, file: File, now: seq<Image>, removed: bool)
    requires AllOk(was) && i < |was| && file in was[i].owners && file != NULL
    requires if removed then now == was[..i] + was[i + 1..]
             else |now| == |was| && now == was[i := now[i]] && file !in now[i].owners
    ensures Owns(was, file, was[i].desc.pbuffer)
    ensures forall desc, prlGo :: Sees(now, file, desc, prlGo) <==>
              Sees(was, file, desc, prlGo) && desc.pbuffer != was[i].desc.pbuffer
  {
    forall desc, prlGo
      ensures Sees(now, file, desc, prlGo) <==>
                Sees(was, file, desc, prlGo) && desc.pbuffer != was[i].desc.pbuffer
    {
      if j :| 0 <= j < |was| && Shows(was[j], file, desc, prlGo) && j != i {
        assert now[if removed && j > i then j - 1 else j] == was[j];
      }
      if j :| 0 <= j < |now| && Shows(now[j], file, desc, prlGo) {
        assert was[if removed && j >= i then j + 1 else j] == now[j];
      }
    }
  }
}
