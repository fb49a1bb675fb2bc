/**
  Properties of the matcher-copier: what the key is, when a candidate is
  copied, what the two counters count, which destination entries a copy may
  touch, and what a second run over the same destination does.
 */
module FileManagerProofs {
  import opened Wrappers
  import opened JavaText
  import opened FileManager

  /*
   * Key derivation
   */

  /** The key depends only on the first eight characters, whatever the extension. */
  lemma KeyIgnoresExtension(a: string, b: string)
    requires |a| >= NUMBERED_NAME_LENGTH && |b| >= NUMBERED_NAME_LENGTH
    requires a[..NUMBERED_NAME_LENGTH] == b[..NUMBERED_NAME_LENGTH]
    ensures DeriveKey(a) == DeriveKey(b)
    ensures DeriveKey(a) == Some(a[..NUMBERED_NAME_LENGTH] + RAW_PHOTO_EXTENSION)
  {
  }

  /** Every derived key ends in ".CR2". */
  lemma DerivedKeyHasExtension(fileName: string, key: string)
    requires DeriveKey(fileName) == Some(key)
    ensures OccursAt(key, RAW_PHOTO_EXTENSION, NUMBERED_NAME_LENGTH)
    ensures Occurs(key, RAW_PHOTO_EXTENSION)
  {
    assert OccursAt(key, RAW_PHOTO_EXTENSION, NUMBERED_NAME_LENGTH);
  }

  lemma KeyExamples()
    ensures DeriveKey("IMG_0001.JPG") == Some("IMG_0001.CR2")
    ensures DeriveKey("IMG_0001.jpeg") == Some("IMG_0001.CR2")
    ensures DeriveKey("AB.JPG") == None
  {
    assert "IMG_0001.JPG"[..8] == "IMG_0001";
    assert "IMG_0001.jpeg"[..8] == "IMG_0001";
    assert "IMG_0001" + ".CR2" == "IMG_0001.CR2";
  }

  /** A name without a dot cannot contain ".CR2". */
  lemma NoDotNoExtension(s: string)
    requires forall k :: 0 <= k < |s| ==> s[k] != '.'
    ensures !Occurs(s, RAW_PHOTO_EXTENSION)
  {
    forall i: nat | i <= |s|
      ensures !OccursAt(s, RAW_PHOTO_EXTENSION, i)
    {
      if i + 4 <= |s| {
        assert s[i..i + 4][0] == s[i];
      }
    }
  }

  /*
   * Generated names
   */

  /**
    ".CR2" cannot straddle the end of a name that does not itself contain it:
    its only occurrence in `p + ".CR2"` is the appended one.
   */
  lemma ExtensionOnlyAtEnd(p: string)
    requires !Occurs(p, RAW_PHOTO_EXTENSION)
    ensures forall i: nat :: i < |p| ==> !OccursAt(p + RAW_PHOTO_EXTENSION, RAW_PHOTO_EXTENSION, i)
  {
    var s := p + RAW_PHOTO_EXTENSION;
    forall i: nat | i < |p|
      ensures !OccursAt(s, RAW_PHOTO_EXTENSION, i)
    {
      if i + 4 <= |p| {
        assert s[i..i + 4] == p[i..i + 4];
        assert !OccursAt(p, RAW_PHOTO_EXTENSION, i);
      } else {
        assert s[|p|] == '.';
        var k := |p| - i;
        assert 1 <= k <= 3;
        assert s[i..i + 4][k] == '.';
      }
    }
  }

  /**
    For an ordinary needed name, the generated name is the numbered name, the
    decimal text of the draw, then ".CR2".
   */
  lemma GeneratedNameShape(fileName: string, draw: Long)
    requires |fileName| >= NUMBERED_NAME_LENGTH
    requires !Occurs(fileName[..NUMBERED_NAME_LENGTH], RAW_PHOTO_EXTENSION)
    ensures DeriveKey(fileName).Some?
    ensures RandomFileName(DeriveKey(fileName).value, draw)
            == fileName[..NUMBERED_NAME_LENGTH] + LongText(draw) + RAW_PHOTO_EXTENSION
  {
    var p := fileName[..NUMBERED_NAME_LENGTH];
    ExtensionOnlyAtEnd(p);
    ReplaceKeepsPlainPrefix(p, RAW_PHOTO_EXTENSION, RAW_PHOTO_EXTENSION, LongText(draw) + RAW_PHOTO_EXTENSION);
    ReplaceTargetAlone(RAW_PHOTO_EXTENSION, LongText(draw) + RAW_PHOTO_EXTENSION);
  }

  /**
    Two different draws give two different generated names for the same
    ordinary key, so two collisions on one key never write the same name.
   */
  lemma DifferentDrawsDifferentNames(fileName: string, d1: Long, d2: Long)
    requires |fileName| >= NUMBERED_NAME_LENGTH
    requires !Occurs(fileName[..NUMBERED_NAME_LENGTH], RAW_PHOTO_EXTENSION)
    requires d1 != d2
    ensures DeriveKey(fileName).Some?
    ensures RandomFileName(DeriveKey(fileName).value, d1) != RandomFileName(DeriveKey(fileName).value, d2)
  {
    var p := fileName[..NUMBERED_NAME_LENGTH];
    GeneratedNameShape(fileName, d1);
    GeneratedNameShape(fileName, d2);
    LongTextInjective(d1, d2);
    var s1, s2 := p + LongText(d1) + RAW_PHOTO_EXTENSION, p + LongText(d2) + RAW_PHOTO_EXTENSION;
    assert s1[|p|..|s1| - 4] == LongText(d1);
    assert s2[|p|..|s2| - 4] == LongText(d2);
  }

  /** No occurrence of ".CR2" starts inside a part without a dot. */
  lemma DotFreePartIsPlain(p: string, s: string)
    requires forall k :: 0 <= k < |p| ==> p[k] != '.'
    ensures forall i: nat :: i < |p| ==> !OccursAt(p + s, RAW_PHOTO_EXTENSION, i)
  {
    forall i: nat | i < |p|
      ensures !OccursAt(p + s, RAW_PHOTO_EXTENSION, i)
    {
      if i + 4 <= |p + s| {
        assert (p + s)[i..i + 4][0] == p[i];
      }
    }
  }

  /** A name that starts with ".CR2" and has a dot-free part before its final ".CR2". */
  lemma ReplaceExtensionThenPlainPart(b: string, rep: string)
    requires forall k :: 0 <= k < |b| ==> b[k] != '.'
    ensures Replace(RAW_PHOTO_EXTENSION + (b + RAW_PHOTO_EXTENSION), RAW_PHOTO_EXTENSION, rep) == rep + (b + rep)
  {
    var e := RAW_PHOTO_EXTENSION;
    DotFreePartIsPlain(b, e);
    ReplaceKeepsPlainPrefix(b, e, e, rep);
    ReplaceTargetAlone(e, rep);
    var mid := e + (b + e);
    assert OccursAt(mid, e, 0);
    ReplaceTakes(mid, e, rep);
    assert mid[|e|..] == b + e;
  }

  /**
    Every ".CR2" of the name gets the draw's text in front, also one that lies
    inside the numbered name: from `a.CR2b.CR2` comes `a<draw>.CR2b<draw>.CR2`.
   */
  lemma GeneratedNameReplacesEveryOccurrence(a: string, b: string, draw: Long)
    requires forall k :: 0 <= k < |a| ==> a[k] != '.'
    requires forall k :: 0 <= k < |b| ==> b[k] != '.'
    ensures RandomFileName(a + (RAW_PHOTO_EXTENSION + (b + RAW_PHOTO_EXTENSION)), draw)
            == a + (LongText(draw) + RAW_PHOTO_EXTENSION + (b + (LongText(draw) + RAW_PHOTO_EXTENSION)))
  {
    var e, rep := RAW_PHOTO_EXTENSION, LongText(draw) + RAW_PHOTO_EXTENSION;
    ReplaceExtensionThenPlainPart(b, rep);
    DotFreePartIsPlain(a, e + (b + e));
    ReplaceKeepsPlainPrefix(a, e + (b + e), e, rep);
  }

  /** The numbered name "A.CR2xyz" gives a key with two occurrences of ".CR2". */
  lemma KeyWithExtensionInside()
    ensures DeriveKey("A.CR2xyz.JPG") == Some("A" + (RAW_PHOTO_EXTENSION + ("xyz" + RAW_PHOTO_EXTENSION)))
  {
    assert "A.CR2xyz.JPG"[..8] == "A.CR2xyz";
    assert "A.CR2xyz" + RAW_PHOTO_EXTENSION == "A" + (RAW_PHOTO_EXTENSION + ("xyz" + RAW_PHOTO_EXTENSION));
  }

  /** A name holding ".CR2" never comes back from the renaming unchanged. */
  lemma GeneratedNameDiffers(fileName: string, draw: Long)
    requires Occurs(fileName, RAW_PHOTO_EXTENSION)
    ensures |RandomFileName(fileName, draw)| > |fileName|
    ensures RandomFileName(fileName, draw) != fileName
  {
    ReplaceGrows(fileName, RAW_PHOTO_EXTENSION, LongText(draw) + RAW_PHOTO_EXTENSION);
  }

  /** A generated name is longer than every key, so it can never be one. */
  lemma GeneratedNameIsNeverAKey(a: string, b: string, draw: Long)
    requires DeriveKey(a).Some? && DeriveKey(b).Some?
    ensures RandomFileName(DeriveKey(a).value, draw) != DeriveKey(b).value
  {
    DerivedKeyHasExtension(a, DeriveKey(a).value);
    GeneratedNameDiffers(DeriveKey(a).value, draw);
  }

  /*
   * One copy
   */

  /**
    On a collision the file already at the key keeps its content, the unique
    counter goes up by one, and a successful copy adds or overwrites only the
    generated name.
   */
  lemma CollisionLeavesExistingUntouched(st: State, key: string, content: Content, oracle: Oracle)
    requires key in st.destination
    requires Occurs(key, RAW_PHOTO_EXTENSION)
    ensures var r := CopyStep(st, key, content, oracle);
      && key in r.destination && r.destination[key] == st.destination[key]
      && r.uniqueNames == st.uniqueNames + 1
      && r.destination == (if oracle.copyOk(st.copied)
                           then st.destination[RandomFileName(key, oracle.draw(st.uniqueNames)) := content]
                           else st.destination)
  {
    GeneratedNameDiffers(key, oracle.draw(st.uniqueNames));
  }

  /** Without a collision a successful copy adds the key with the candidate's bytes and nothing else. */
  lemma RegularCopy(st: State, key: string, content: Content, oracle: Oracle)
    requires key !in st.destination
    ensures var r := CopyStep(st, key, content, oracle);
      && r.uniqueNames == st.uniqueNames
      && r.destination == (if oracle.copyOk(st.copied) then st.destination[key := content] else st.destination)
  {
  }

  /*
   * The inner loop
   */

  /**
    Scanning the pool counts one copy per matching candidate, at most as many
    generated names as copies, and never removes a destination entry.
   */
  lemma {:induction false} ScanPoolCounts(st: State, key: string, pool: seq<FileRecord>, oracle: Oracle)
    ensures var r := ScanPool(st, key, pool, oracle);
      && r.copied == st.copied + MatchCount(key, pool)
      && r.uniqueNames - st.uniqueNames <= r.copied - st.copied
      && st.destination.Keys <= r.destination.Keys
    decreases |pool|
  {
    if pool != [] {
      var s1 := MatchStep(st, key, pool[0], oracle);
      ScanPoolCounts(s1, key, pool[1..], oracle);
      if pool[0].name == key {
        assert s1.uniqueNames - st.uniqueNames <= 1;
        assert st.destination.Keys <= s1.destination.Keys;
      }
    }
  }

  /** A pool with no candidate named `key` leaves the state as it was. */
  lemma {:induction false} ScanPoolNoMatch(st: State, key: string, pool: seq<FileRecord>, oracle: Oracle)
    requires MatchCount(key, pool) == 0
    ensures ScanPool(st, key, pool, oracle) == st
    decreases |pool|
  {
    if pool != [] {
      ScanPoolNoMatch(st, key, pool[1..], oracle);
    }
  }

  /**
    Once the key is taken, every further match goes to a generated name and the
    file at the key is never touched again.
   */
  lemma {:induction false} ScanPoolKeepsTakenKey(st: State, key: string, pool: seq<FileRecord>, oracle: Oracle)
    requires key in st.destination
    requires Occurs(key, RAW_PHOTO_EXTENSION)
    ensures var r := ScanPool(st, key, pool, oracle);
      && key in r.destination && r.destination[key] == st.destination[key]
      && r.uniqueNames == st.uniqueNames + MatchCount(key, pool)
    decreases |pool|
  {
    if pool != [] {
      var s1 := MatchStep(st, key, pool[0], oracle);
      if pool[0].name == key {
        CollisionLeavesExistingUntouched(st, key, pool[0].content, oracle);
      }
      ScanPoolKeepsTakenKey(s1, key, pool[1..], oracle);
    }
  }

  /**
    With every copy succeeding and the key free, the first matching candidate
    lands at the key and every later duplicate gets a generated name.
   */
  lemma {:induction false} ScanPoolFreshKey(st: State, key: string, pool: seq<FileRecord>, oracle: Oracle, first: nat)
    requires forall k :: oracle.copyOk(k)
    requires key !in st.destination
    requires Occurs(key, RAW_PHOTO_EXTENSION)
    requires first < |pool| && pool[first].name == key
    requires forall k :: 0 <= k < first ==> pool[k].name != key
    ensures var r := ScanPool(st, key, pool, oracle);
      && key in r.destination && r.destination[key] == pool[first].content
      && r.uniqueNames == st.uniqueNames + MatchCount(key, pool) - 1
    decreases |pool|
  {
    var s1 := MatchStep(st, key, pool[0], oracle);
    if first == 0 {
      assert oracle.copyOk(st.copied);
      ScanPoolKeepsTakenKey(s1, key, pool[1..], oracle);
    } else {
      ScanPoolFreshKey(s1, key, pool[1..], oracle, first - 1);
    }
  }

  /** A candidate at index `i` named `key` makes the match count positive. */
  lemma {:induction false} MatchCountPositive(key: string, pool: seq<FileRecord>, i: nat)
    requires i < |pool| && pool[i].name == key
    ensures MatchCount(key, pool) >= 1
    decreases |pool|
  {
    if i > 0 {
      MatchCountPositive(key, pool[1..], i - 1);
    }
  }

  /**
    With the key free and exactly one candidate named `key`, the scan is that
    one copy: if it succeeds, the destination gains exactly the key, with the
    candidate's bytes, and no generated name is used.
   */
  lemma {:induction false} ScanPoolSingleMatch(st: State, key: string, pool: seq<FileRecord>, oracle: Oracle, first: nat)
    requires key !in st.destination
    requires MatchCount(key, pool) == 1
    requires first < |pool| && pool[first].name == key
    ensures ScanPool(st, key, pool, oracle) == CopyStep(st, key, pool[first].content, oracle)
    ensures oracle.copyOk(st.copied) ==>
              ScanPool(st, key, pool, oracle) == State(st.destination[key := pool[first].content], st.copied + 1, st.uniqueNames)
    decreases |pool|
  {
    if first == 0 {
      var s1 := MatchStep(st, key, pool[0], oracle);
      ScanPoolNoMatch(s1, key, pool[1..], oracle);
    } else {
      MatchCountPositive(key, pool[1..], first - 1);
      ScanPoolSingleMatch(st, key, pool[1..], oracle, first - 1);
    }
  }

  /** With every copy succeeding, a key some candidate matches is in the destination afterwards. */
  lemma {:induction false} ScanPoolCopiesKey(st: State, key: string, pool: seq<FileRecord>, oracle: Oracle)
    requires forall k :: oracle.copyOk(k)
    requires MatchCount(key, pool) > 0
    ensures key in ScanPool(st, key, pool, oracle).destination
    decreases |pool|
  {
    var s1 := MatchStep(st, key, pool[0], oracle);
    if pool[0].name == key {
      assert oracle.copyOk(st.copied);
      assert key in s1.destination;
      ScanPoolCounts(s1, key, pool[1..], oracle);
    } else {
      ScanPoolCopiesKey(s1, key, pool[1..], oracle);
    }
  }

  /*
   * The whole run
   */

  /**
    The run stops at the first needed name with fewer than eight characters,
    and completes exactly when there is none.
   */
  lemma {:induction false} RunStopsAtFirstShortName(st: State, needed: seq<FileRecord>, pool: seq<FileRecord>, oracle: Oracle, from: nat)
    ensures var r := RunFrom(st, needed, pool, oracle, from);
      && (r.crashedAt.None? <==> forall i :: from <= i < |needed| ==> |needed[i].name| >= NUMBERED_NAME_LENGTH)
      && (r.crashedAt.Some? ==>
            && from <= r.crashedAt.value < |needed|
            && |needed[r.crashedAt.value].name| < NUMBERED_NAME_LENGTH
            && forall i :: from <= i < r.crashedAt.value ==> |needed[i].name| >= NUMBERED_NAME_LENGTH)
    decreases |needed| - from
  {
    if from < |needed| {
      match DeriveKey(needed[from].name)
      case None =>
      case Some(key) =>
        RunStopsAtFirstShortName(ScanPool(st, key, pool, oracle), needed, pool, oracle, from + 1);
    }
  }

  /**
    After the run the copy counter has gone up by the number of matching pairs,
    failed copies included; the unique counter by no more than that; and no
    destination entry has disappeared.
   */
  lemma {:induction false} RunCounts(st: State, needed: seq<FileRecord>, pool: seq<FileRecord>, oracle: Oracle, from: nat)
    ensures var r := RunFrom(st, needed, pool, oracle, from).final;
      && r.copied == st.copied + MatchingPairs(needed, pool, from)
      && r.uniqueNames - st.uniqueNames <= r.copied - st.copied
      && st.destination.Keys <= r.destination.Keys
    decreases |needed| - from
  {
    if from < |needed| {
      match DeriveKey(needed[from].name)
      case None =>
      case Some(key) =>
        var s1 := ScanPool(st, key, pool, oracle);
        ScanPoolCounts(st, key, pool, oracle);
        RunCounts(s1, needed, pool, oracle, from + 1);
    }
  }

  /** The class invariant: generated names never outnumber copies. */
  lemma UniqueNamesNeverExceedCopies(st: State, needed: seq<FileRecord>, pool: seq<FileRecord>, oracle: Oracle)
    requires st.uniqueNames <= st.copied
    ensures var r := Run(st, needed, pool, oracle).final; r.uniqueNames <= r.copied
  {
    RunCounts(st, needed, pool, oracle, 0);
  }

  /**
    Every needed file the run reaches whose key some candidate matches has
    that key present in `destination`.
   */
  ghost predicate Covered(destination: map<string, Content>, needed: seq<FileRecord>, pool: seq<FileRecord>, from: nat)
    decreases |needed| - from
  {
    if from >= |needed| then true
    else match DeriveKey(needed[from].name)
      case None => true
      case Some(key) => (MatchCount(key, pool) > 0 ==> key in destination) && Covered(destination, needed, pool, from + 1)
  }

  lemma {:induction false} CoveredGrows(d1: map<string, Content>, d2: map<string, Content>, needed: seq<FileRecord>, pool: seq<FileRecord>, from: nat)
    requires Covered(d1, needed, pool, from)
    requires d1.Keys <= d2.Keys
    ensures Covered(d2, needed, pool, from)
    decreases |needed| - from
  {
    if from < |needed| && DeriveKey(needed[from].name).Some? {
      CoveredGrows(d1, d2, needed, pool, from + 1);
    }
  }

  /** When every copy succeeds, a run leaves every matched key in the destination. */
  lemma {:induction false} RunCoversKeys(st: State, needed: seq<FileRecord>, pool: seq<FileRecord>, oracle: Oracle, from: nat)
    requires forall k :: oracle.copyOk(k)
    ensures Covered(RunFrom(st, needed, pool, oracle, from).final.destination, needed, pool, from)
    decreases |needed| - from
  {
    if from < |needed| {
      match DeriveKey(needed[from].name)
      case None =>
      case Some(key) =>
        var s1 := ScanPool(st, key, pool, oracle);
        var r := RunFrom(s1, needed, pool, oracle, from + 1).final;
        if MatchCount(key, pool) > 0 {
          ScanPoolCopiesKey(st, key, pool, oracle);
          RunCounts(s1, needed, pool, oracle, from + 1);
        }
        RunCoversKeys(s1, needed, pool, oracle, from + 1);
    }
  }

  /** A run in which every matched key is already taken sends every copy down the collision path. */
  lemma {:induction false} RunAllCollide(st: State, needed: seq<FileRecord>, pool: seq<FileRecord>, oracle: Oracle, from: nat)
    requires Covered(st.destination, needed, pool, from)
    ensures var r := RunFrom(st, needed, pool, oracle, from).final;
      r.uniqueNames - st.uniqueNames == r.copied - st.copied
    decreases |needed| - from
  {
    if from < |needed| {
      match DeriveKey(needed[from].name)
      case None =>
      case Some(key) =>
        var s1 := ScanPool(st, key, pool, oracle);
        ScanPoolCounts(st, key, pool, oracle);
        if MatchCount(key, pool) > 0 {
          DerivedKeyHasExtension(needed[from].name, key);
          ScanPoolKeepsTakenKey(st, key, pool, oracle);
        } else {
          ScanPoolNoMatch(st, key, pool, oracle);
        }
        CoveredGrows(st.destination, s1.destination, needed, pool, from + 1);
        RunAllCollide(s1, needed, pool, oracle, from + 1);
    }
  }

  /**
    A second process over the destination a first one left behind, the first
    with every copy succeeding: the second starts its counters at zero, and
    every one of its copies goes to a generated name.
   */
  lemma SecondRunAllCollides(st: State, needed: seq<FileRecord>, pool: seq<FileRecord>, first: Oracle, second: Oracle)
    requires forall k :: first.copyOk(k)
    ensures var r1 := Run(st, needed, pool, first).final;
      var r2 := Run(State(r1.destination, 0, 0), needed, pool, second).final;
      r2.uniqueNames == r2.copied == MatchingPairs(needed, pool, 0)
  {
    var r1 := Run(st, needed, pool, first).final;
    RunCoversKeys(st, needed, pool, first, 0);
    RunAllCollide(State(r1.destination, 0, 0), needed, pool, second, 0);
    RunCounts(State(r1.destination, 0, 0), needed, pool, second, 0);
  }

  /*
   * End-to-end scenarios
   */

  /** The candidate pool of the scenarios: the raw file and a second JPEG of the same name. */
  function ExamplePool(raw: Content, jpg: Content): seq<FileRecord> {
    [FileRecord("IMG_0001.CR2", raw), FileRecord("IMG_0001.JPG", jpg)]
  }

  /** Only the first candidate of the example pool matches the key "IMG_0001.CR2". */
  lemma ExamplePoolMatchesOnce(st: State, raw: Content, jpg: Content, oracle: Oracle)
    ensures ScanPool(st, "IMG_0001.CR2", ExamplePool(raw, jpg), oracle)
            == CopyStep(st, "IMG_0001.CR2", raw, oracle)
  {
    var key := "IMG_0001.CR2";
    var pool := ExamplePool(raw, jpg);
    var s1 := CopyStep(st, key, raw, oracle);
    assert MatchStep(st, key, pool[0], oracle) == s1;
    assert "IMG_0001.JPG" != key;
    assert MatchStep(s1, key, pool[1..][0], oracle) == s1;
    assert pool[1..][1..] == [];
    assert ScanPool(s1, key, pool[1..], oracle) == ScanPool(s1, key, [], oracle);
  }

  /** A run over the single needed file "IMG_0001.JPG" and the example pool is one CopyStep. */
  lemma ExampleRunIsOneCopy(st: State, jpg: Content, raw: Content, oracle: Oracle)
    ensures Run(st, [FileRecord("IMG_0001.JPG", jpg)], ExamplePool(raw, jpg), oracle)
            == RunResult(CopyStep(st, "IMG_0001.CR2", raw, oracle), None)
  {
    var needed := [FileRecord("IMG_0001.JPG", jpg)];
    KeyExamples();
    assert DeriveKey(needed[0].name) == Some("IMG_0001.CR2");
    ExamplePoolMatchesOnce(st, raw, jpg, oracle);
    var s1 := ScanPool(st, "IMG_0001.CR2", ExamplePool(raw, jpg), oracle);
    assert RunFrom(s1, needed, ExamplePool(raw, jpg), oracle, 1) == RunResult(s1, None);
    assert RunFrom(st, needed, ExamplePool(raw, jpg), oracle, 0) == RunFrom(s1, needed, ExamplePool(raw, jpg), oracle, 1);
  }

  /** Only the raw file with exactly the key's name is copied into an empty destination. */
  lemma ScenarioEmptyDestination(jpg: Content, raw: Content, oracle: Oracle)
    requires oracle.copyOk(0)
    ensures Run(State(map[], 0, 0), [FileRecord("IMG_0001.JPG", jpg)], ExamplePool(raw, jpg), oracle)
            == RunResult(State(map["IMG_0001.CR2" := raw], 1, 0), None)
  {
    ExampleRunIsOneCopy(State(map[], 0, 0), jpg, raw, oracle);
  }

  /** The name generated for the key "IMG_0001.CR2": the draw goes between the number and ".CR2". */
  lemma ExampleGeneratedName(draw: Long)
    ensures RandomFileName("IMG_0001.CR2", draw) == "IMG_0001" + LongText(draw) + ".CR2"
  {
    KeyExamples();
    NoDotNoExtension("IMG_0001");
    assert "IMG_0001.JPG"[..8] == "IMG_0001";
    GeneratedNameShape("IMG_0001.JPG", draw);
  }

  /** With the key taken, the original stays and the copy lands under a generated name. */
  lemma ScenarioTakenDestination(jpg: Content, raw: Content, existing: Content, oracle: Oracle)
    requires oracle.copyOk(0)
    ensures Run(State(map["IMG_0001.CR2" := existing], 0, 0),
                [FileRecord("IMG_0001.JPG", jpg)], ExamplePool(raw, jpg), oracle)
            == RunResult(State(map["IMG_0001.CR2" := existing,
                                   "IMG_0001" + LongText(oracle.draw(0)) + ".CR2" := raw], 1, 1), None)
  {
    var st := State(map["IMG_0001.CR2" := existing], 0, 0);
    ExampleRunIsOneCopy(st, jpg, raw, oracle);
    ExampleGeneratedName(oracle.draw(0));
  }

  /** A needed name shorter than eight characters stops the run before anything is copied. */
  lemma ScenarioShortName(jpg: Content, raw: Content, st: State, oracle: Oracle)
    ensures Run(st, [FileRecord("AB.JPG", jpg)], [FileRecord("AB.CR2", raw)], oracle)
            == RunResult(st, Some(0))
  {
  }
}
