/**
 The consistency check over a loaded directory: every tag is used by some
 item, and every tag an item lists exists. Each failure is logged and sets
 one shared flag; nothing stops the scan early, and the flag alone decides
 the result. The log, a side channel in the Rust test `read_all_directory`,
 is returned here as a list of violations.
 */
module DirectoryCheck {
  import opened Directory

  /** The two kinds of logged failure. */
  datatype Violation =
    | UnusedTag(tag: string)                    // tag not found in any item
    | UnknownTag(tag: string, item: string)     // tag listed by an item but not defined

  /** The message of the aggregate error. */
  const FailureMessage: string := "Some errors found in data"

  /** Some item lists `key` among its tags. */
  ghost predicate TagUsed(d: Directory, key: string) {
    exists ik | ik in d.items :: key in d.items[ik].tags
  }

  /** Tag liveness: every tag is used by some item. */
  ghost predicate TagsLive(d: Directory) {
    forall k | k in d.tags :: TagUsed(d, k)
  }

  /** Referential closure: every tag an item lists is a key of `tags`. */
  ghost predicate TagsResolved(d: Directory) {
    forall ik, t | ik in d.items && t in d.items[ik].tags :: t in d.tags
  }

  ghost predicate Consistent(d: Directory) {
    TagsLive(d) && TagsResolved(d)
  }

  /** `v` describes a real failure of `d`. */
  ghost predicate IsViolation(d: Directory, v: Violation) {
    match v
    case UnusedTag(k) => k in d.tags && !TagUsed(d, k)
    case UnknownTag(t, ik) => ik in d.items && t in d.items[ik].tags && t !in d.tags
  }

  /** A directory is consistent exactly when it has no violation at all. */
  lemma ConsistentIffNoViolation(d: Directory)
    ensures Consistent(d) <==> forall v :: !IsViolation(d, v)
  {
    if !TagsLive(d) {
      var k :| k in d.tags && !TagUsed(d, k);
      assert IsViolation(d, UnusedTag(k));
    } else if !TagsResolved(d) {
      var ik, t :| ik in d.items && t in d.items[ik].tags && t !in d.tags;
      assert IsViolation(d, UnknownTag(t, ik));
    }
  }

  /**
   Searches the items for one listing `key`; like the inner loop of the
   source, it stops at the first item that does.
   */
  method FindTagUser(d: Directory, key: string) returns (found: bool)
    ensures found <==> TagUsed(d, key)
  {
    found := false;
    var unvisited := d.items.Keys;
    while unvisited != {}
      invariant unvisited <= d.items.Keys
      invariant forall ik | ik in d.items.Keys - unvisited :: key !in d.items[ik].tags
      decreases unvisited
    {
      var ik :| ik in unvisited;
      if key in d.items[ik].tags {
        found := true;
        break;
      }
      unvisited := unvisited - {ik};
    }
  }

  /**
   The check. Every tag and every item is visited whatever failed before;
   the result is Err exactly when some violation was logged, and the log
   holds every violation of the directory and nothing else.
   */
  method CheckDirectory(d: Directory) returns (r: Result<(), string>, log: seq<Violation>)
    ensures r.Ok? <==> Consistent(d)
    ensures r.Err? <==> log != []
    ensures r.Err? ==> r.error == FailureMessage
    ensures forall v :: v in log <==> IsViolation(d, v)
  {
    var fail := false;
    log := [];
    var tagsLeft := d.tags.Keys;
    while tagsLeft != {}
      invariant tagsLeft <= d.tags.Keys
      invariant fail <==> log != []
      invariant forall v :: v in log <==>
        v.UnusedTag? && v.tag in d.tags.Keys - tagsLeft && IsViolation(d, v)
      decreases tagsLeft
    {
      var key :| key in tagsLeft;
      var found := FindTagUser(d, key);
      if !found {
        log := log + [UnusedTag(key)];
        fail := true;
      }
      tagsLeft := tagsLeft - {key};
    }

    var itemsLeft := d.items.Keys;
    while itemsLeft != {}
      invariant itemsLeft <= d.items.Keys
      invariant fail <==> log != []
      invariant forall v :: v in log <==>
        (v.UnusedTag? && IsViolation(d, v)) ||
        (v.UnknownTag? && v.item in d.items.Keys - itemsLeft && IsViolation(d, v))
      decreases itemsLeft
    {
      var key :| key in itemsLeft;
      var item := d.items[key];
      for j := 0 to |item.tags|
        invariant fail <==> log != []
        invariant forall v :: v in log <==>
          (v.UnusedTag? && IsViolation(d, v)) ||
          (v.UnknownTag? && v.item in d.items.Keys - itemsLeft && IsViolation(d, v)) ||
          (v.UnknownTag? && v.item == key && v.tag in item.tags[..j] && v.tag !in d.tags)
      {
        var tag := item.tags[j];
        if tag !in d.tags {
          log := log + [UnknownTag(tag, key)];
          fail := true;
        }
        assert item.tags[..j + 1] == item.tags[..j] + [tag];
      }
      assert item.tags[..|item.tags|] == item.tags;
      itemsLeft := itemsLeft - {key};
    }

    ConsistentIffNoViolation(d);
    if log != [] {
      assert IsViolation(d, log[0]);
    }
    if fail {
      r := Err(FailureMessage);
    } else {
      r := Ok(());
    }
  }

  /**
   The test as a whole: load the directory, leaving with the loader's error
   if it fails, then check it.
   */
  datatype TestError = LoadFailed(cause: DirectoryError) | DataErrors(message: string)

  method ReadAllDirectory(src: FileSource) returns (r: Result<(), TestError>)
    ensures r.Ok? <==> Load(src).Ok? && Consistent(Load(src).value)
    ensures Load(src).Err? ==> r == Err(LoadFailed(Load(src).error))
    ensures Load(src).Ok? && r.Err? ==> r == Err(DataErrors(FailureMessage))
  {
    var loaded := LoadDirectory(src);
    if loaded.Err? {
      return Err(LoadFailed(loaded.error));
    }
    var checked, _ := CheckDirectory(loaded.value);
    if checked.Err? {
      return Err(DataErrors(checked.error));
    }
    return Ok(());
  }

  /** The empty directory passes the check. */
  lemma EmptyDirectoryConsistent()
    ensures Consistent(Directory(map[], map[]))
  {
  }

  /** A tag that no item lists makes the check fail, whatever else holds. */
  lemma UnusedTagFails(d: Directory, key: string)
    requires key in d.tags
    requires forall ik | ik in d.items :: key !in d.items[ik].tags
    ensures !Consistent(d)
    ensures IsViolation(d, UnusedTag(key))
  {
  }

  /** An item listing a tag that does not exist makes the check fail. */
  lemma UnknownTagFails(d: Directory, ik: string, tag: string)
    requires ik in d.items && tag in d.items[ik].tags && tag !in d.tags
    ensures !Consistent(d)
    ensures IsViolation(d, UnknownTag(tag, ik))
  {
  }

  /**
   Adding a tag keeps the directory consistent exactly when some item already
   lists it (records are keyed by stem, so the new key is the one that counts).
   */
  lemma {:induction false} AddTagPreservesIff(d: Directory, key: string, t: Tag)
    requires Consistent(d)
    ensures Consistent(d.(tags := d.tags[key := t])) <==> TagUsed(d, key)
  {
    var d' := d.(tags := d.tags[key := t]);
    if TagUsed(d, key) {
      forall k | k in d'.tags ensures TagUsed(d', k) {
        if k != key {
          var ik :| ik in d.items && k in d.items[ik].tags;
          assert ik in d'.items;
        }
      }
    } else {
      assert key in d'.tags && !TagUsed(d', key);
    }
  }
}
