/**
  The matcher-copier of the file manager (`Main` in src/Main.java).

  For every "needed" photo the program derives a key, the first eight
  characters of its name followed by ".CR2", and copies every candidate file
  whose name is exactly that key into a destination directory. When the key is
  already taken there, the copy goes to a name with a random 64-bit number
  spliced in before the extension. Two process-wide counters record how many
  copies were attempted and how many needed a generated name.

  The directory is a map from file name to content. The random draws and the
  outcome of every copy come from an Oracle, so the model is deterministic:
  the n-th draw is `draw(n)` and the copy attempted when the copy counter
  stands at k succeeds exactly when `copyOk(k)`.
 */
module FileManager {
  import opened Wrappers
  import opened JavaText

  /** The bytes of a file, copied verbatim. */
  type Content = seq<bv8>

  /** Java's `long`. */
  type Long = x: int | -0x8000_0000_0000_0000 <= x < 0x8000_0000_0000_0000

  const RAW_PHOTO_EXTENSION: string := ".CR2"
  const NUMBERED_NAME_LENGTH: nat := 8

  /** A regular file found by the directory walk: its base name and its bytes. */
  datatype FileRecord = FileRecord(name: string, content: Content)

  /** What the environment decides: the random draws and whether each copy succeeds. */
  datatype Oracle = Oracle(draw: nat -> Long, copyOk: nat -> bool)

  /** The destination directory and the two counters. */
  datatype State = State(destination: map<string, Content>, copied: nat, uniqueNames: nat)

  /**
    The state a run leaves behind, and the index of the needed file whose name
    was too short to derive a key from, if the run stopped on one.
   */
  datatype RunResult = RunResult(final: State, crashedAt: Option<nat>)

  /**
    `getOnlyFileNameWithNumberWithoutDuplicatedNumbers`: `fileName.substring(0, 8)`,
    which throws when the name is shorter than eight characters.
   */
  function NumberedName(fileName: string): (r: Option<string>)
    ensures r.Some? <==> |fileName| >= NUMBERED_NAME_LENGTH
    ensures r.Some? ==> |r.value| == NUMBERED_NAME_LENGTH && r.value <= fileName
  {
    if |fileName| >= NUMBERED_NAME_LENGTH then Some(fileName[..NUMBERED_NAME_LENGTH]) else None
  }

  /** The name a needed file's raw counterpart must have: its numbered name plus ".CR2". */
  function DeriveKey(fileName: string): (r: Option<string>)
    ensures r.Some? <==> |fileName| >= NUMBERED_NAME_LENGTH
    ensures r.Some? ==> |r.value| == NUMBERED_NAME_LENGTH + |RAW_PHOTO_EXTENSION|
    ensures r.Some? ==> r.value[..NUMBERED_NAME_LENGTH] == fileName[..NUMBERED_NAME_LENGTH]
    ensures r.Some? ==> r.value[NUMBERED_NAME_LENGTH..] == RAW_PHOTO_EXTENSION
  {
    match NumberedName(fileName)
    case None => None
    case Some(numbered) => Some(numbered + RAW_PHOTO_EXTENSION)
  }

  /**
    `generateRandomFileName`: every ".CR2" in the name becomes the decimal text
    of the draw followed by ".CR2".
   */
  function RandomFileName(fileName: string, draw: Long): (r: string)
    ensures |r| >= |fileName|
  {
    Replace(fileName, RAW_PHOTO_EXTENSION, LongText(draw) + RAW_PHOTO_EXTENSION)
  }

  /**
    Where the copy of a match goes: the key itself when it is free, otherwise
    the name generated from the next draw. A taken key holding ".CR2", as every
    derived key does, is never its own target, so the file there is not overwritten.
   */
  function CopyTarget(st: State, key: string, oracle: Oracle): (r: string)
    ensures key !in st.destination ==> r == key
    ensures key in st.destination ==> r == RandomFileName(key, oracle.draw(st.uniqueNames))
    ensures key in st.destination && Occurs(key, RAW_PHOTO_EXTENSION) ==> |r| > |key| && r != key
  {
    var draw := oracle.draw(st.uniqueNames);
    ReplaceGrowsWhenPresent(key, RAW_PHOTO_EXTENSION, LongText(draw) + RAW_PHOTO_EXTENSION);
    if key in st.destination then RandomFileName(key, draw) else key
  }

  /**
    `generateAndCopyWithUniqueNameOrRegular`: copy `content` to the key or, on a
    collision, to a generated name. The copy counter goes up whether or not the
    copy succeeds; the unique-name counter goes up exactly on a collision. A
    successful copy writes the target and nothing else; a failed one writes nothing.
   */
  function CopyStep(st: State, key: string, content: Content, oracle: Oracle): (r: State)
    ensures r.copied == st.copied + 1
    ensures r.uniqueNames == st.uniqueNames + (if key in st.destination then 1 else 0)
    ensures oracle.copyOk(st.copied) ==>
              CopyTarget(st, key, oracle) in r.destination
              && r.destination[CopyTarget(st, key, oracle)] == content
    ensures !oracle.copyOk(st.copied) ==> r.destination == st.destination
    ensures forall n :: n != CopyTarget(st, key, oracle) ==>
              (n in r.destination <==> n in st.destination)
              && (n in st.destination ==> r.destination[n] == st.destination[n])
  {
    var target := CopyTarget(st, key, oracle);
    var destination := if oracle.copyOk(st.copied) then st.destination[target := content] else st.destination;
    var uniqueNames := if key in st.destination then st.uniqueNames + 1 else st.uniqueNames;
    State(destination, st.copied + 1, uniqueNames)
  }

  /**
    `generateIfSameFile`: a candidate is copied exactly when its name equals the
    key, case-sensitively and over the whole string; otherwise nothing changes.
   */
  function MatchStep(st: State, key: string, candidate: FileRecord, oracle: Oracle): (r: State)
    ensures candidate.name != key ==> r == st
    ensures r.copied == st.copied + (if candidate.name == key then 1 else 0)
  {
    if key == candidate.name then CopyStep(st, key, candidate.content, oracle) else st
  }

  /** The number of candidates whose name is exactly `key`. */
  function MatchCount(key: string, pool: seq<FileRecord>): nat
    decreases |pool|
  {
    if pool == [] then 0 else (if pool[0].name == key then 1 else 0) + MatchCount(key, pool[1..])
  }

  /**
    The number of matching (needed, candidate) pairs from the needed file at
    `from` on, up to the first needed name too short to give a key.
   */
  function MatchingPairs(needed: seq<FileRecord>, pool: seq<FileRecord>, from: nat): nat
    decreases |needed| - from
  {
    if from >= |needed| || |needed[from].name| < NUMBERED_NAME_LENGTH then 0
    else MatchCount(needed[from].name[..NUMBERED_NAME_LENGTH] + RAW_PHOTO_EXTENSION, pool)
         + MatchingPairs(needed, pool, from + 1)
  }

  /**
    The inner loop: every candidate of the pool, in order, against one key.
    One copy is counted per candidate named exactly `key`, and no destination
    entry disappears.
   */
  function ScanPool(st: State, key: string, pool: seq<FileRecord>, oracle: Oracle): (r: State)
    ensures r.copied == st.copied + MatchCount(key, pool)
    ensures st.destination.Keys <= r.destination.Keys
    decreases |pool|
  {
    if pool == [] then st else ScanPool(MatchStep(st, key, pool[0], oracle), key, pool[1..], oracle)
  }

  /**
    The outer loop from the needed file at index `from` on. A needed name with
    fewer than eight characters throws out of the loop: the run stops there with
    the destination as it stands.
   */
  function RunFrom(st: State, needed: seq<FileRecord>, pool: seq<FileRecord>, oracle: Oracle, from: nat): (r: RunResult)
    ensures r.final.copied == st.copied + MatchingPairs(needed, pool, from)
    ensures st.destination.Keys <= r.final.destination.Keys
    ensures r.crashedAt.Some? ==>
              from <= r.crashedAt.value < |needed| && |needed[r.crashedAt.value].name| < NUMBERED_NAME_LENGTH
    decreases |needed| - from
  {
    if from >= |needed| then RunResult(st, None)
    else match DeriveKey(needed[from].name)
      case None => RunResult(st, Some(from))
      case Some(key) => RunFrom(ScanPool(st, key, pool, oracle), needed, pool, oracle, from + 1)
  }

  /**
    `filterAndGenerateFiles` over the whole needed list: one copy counted per
    matching pair, no entry removed, and a stop only at a name too short for a key.
   */
  function Run(st: State, needed: seq<FileRecord>, pool: seq<FileRecord>, oracle: Oracle): (r: RunResult)
    ensures r.final.copied == st.copied + MatchingPairs(needed, pool, 0)
    ensures st.destination.Keys <= r.final.destination.Keys
    ensures r.crashedAt.Some? ==> r.crashedAt.value < |needed| && |needed[r.crashedAt.value].name| < NUMBERED_NAME_LENGTH
  {
    RunFrom(st, needed, pool, oracle, 0)
  }

  /**
    The mutable part of `Main`: the destination directory and the two static
    counters, updated in place by the copy methods.
   */
  class MatcherCopier {
    var destination: map<string, Content>
    var copiedCount: nat
    var uniqueNamesCount: nat

    /** The current directory and counters as a value. */
    function Snapshot(): State
      reads this
    {
      State(destination, copiedCount, uniqueNamesCount)
    }

    /** Every generated name was counted as a copy too. */
    ghost predicate Valid()
      reads this
    {
      uniqueNamesCount <= copiedCount
    }

    /** Both counters start at zero; the destination may already hold files. */
    constructor (existing: map<string, Content>)
      ensures Valid()
      ensures Snapshot() == State(existing, 0, 0)
    {
      destination := existing;
      copiedCount := 0;
      uniqueNamesCount := 0;
    }

    /**
      `copyFile`: `Files.copy` with REPLACE_EXISTING. On success the target now
      holds the source's bytes, whatever it held before; an I/O error is logged
      and leaves the directory as it was.
     */
    method CopyFile(source: Content, target: string, ok: bool)
      modifies this`destination
      ensures destination == if ok then old(destination)[target := source] else old(destination)
    {
      if ok {
        destination := destination[target := source];
      }
    }

    /** `generateAndCopyFileWithUniqueName`: one draw, no re-check of the new name. */
    method GenerateAndCopyFileWithUniqueName(key: string, source: Content, draw: Long, ok: bool)
      returns (target: string)
      modifies this`destination
      ensures target == RandomFileName(key, draw)
      ensures destination == if ok then old(destination)[target := source] else old(destination)
    {
      target := RandomFileName(key, draw);
      CopyFile(source, target, ok);
    }

    /** `generateAndCopyWithUniqueNameOrRegular`. */
    method GenerateAndCopyWithUniqueNameOrRegular(key: string, source: Content, oracle: Oracle)
      returns (target: string)
      requires Valid()
      modifies this
      ensures Valid()
      ensures target == CopyTarget(old(Snapshot()), key, oracle)
      ensures Snapshot() == CopyStep(old(Snapshot()), key, source, oracle)
    {
      var attempt := copiedCount;
      if key in destination {
        var draw := oracle.draw(uniqueNamesCount);
        copiedCount := copiedCount + 1;
        uniqueNamesCount := uniqueNamesCount + 1;
        target := GenerateAndCopyFileWithUniqueName(key, source, draw, oracle.copyOk(attempt));
      } else {
        target := key;
        CopyFile(source, target, oracle.copyOk(attempt));
        copiedCount := copiedCount + 1;
      }
    }

    /** `generateAndCopyFile`: copy a matched candidate under the key. */
    method GenerateAndCopyFile(key: string, candidate: FileRecord, oracle: Oracle)
      returns (target: string)
      requires Valid()
      modifies this
      ensures Valid()
      ensures target == CopyTarget(old(Snapshot()), key, oracle)
      ensures Snapshot() == CopyStep(old(Snapshot()), key, candidate.content, oracle)
    {
      target := GenerateAndCopyWithUniqueNameOrRegular(key, candidate.content, oracle);
    }

    /** `generateIfSameFile`: the name of the new copy, if the candidate matched. */
    method GenerateIfSameFile(required: string, candidate: FileRecord, oracle: Oracle)
      returns (copy: Option<string>)
      requires Valid()
      modifies this
      ensures Valid()
      ensures copy.Some? <==> required == candidate.name
      ensures copy.Some? ==> copy.value == CopyTarget(old(Snapshot()), required, oracle)
      ensures Snapshot() == MatchStep(old(Snapshot()), required, candidate, oracle)
    {
      if required == candidate.name {
        var target := GenerateAndCopyFile(required, candidate, oracle);
        copy := Some(target);
      } else {
        copy := None;
      }
    }

    /**
      `filterAndGenerateFiles`: every needed file against every candidate.
      Returns the index of the needed file whose short name stopped the run, if any.
     */
    method FilterAndGenerateFiles(needed: seq<FileRecord>, pool: seq<FileRecord>, oracle: Oracle)
      returns (crashedAt: Option<nat>)
      requires Valid()
      modifies this
      ensures Valid()
      ensures RunResult(Snapshot(), crashedAt) == Run(old(Snapshot()), needed, pool, oracle)
    {
      var i := 0;
      while i < |needed|
        invariant 0 <= i <= |needed|
        invariant Valid()
        invariant RunFrom(Snapshot(), needed, pool, oracle, i) == Run(old(Snapshot()), needed, pool, oracle)
      {
        var numbered := NumberedName(needed[i].name);
        if numbered.None? {
          crashedAt := Some(i);
          return;
        }
        var cr2FileName := numbered.value + RAW_PHOTO_EXTENSION;
        ghost var scanned := ScanPool(Snapshot(), cr2FileName, pool, oracle);
        var j := 0;
        while j < |pool|
          invariant 0 <= j <= |pool|
          invariant Valid()
          invariant ScanPool(Snapshot(), cr2FileName, pool[j..], oracle) == scanned
        {
          var _ := GenerateIfSameFile(cr2FileName, pool[j], oracle);
          j := j + 1;
        }
        i := i + 1;
      }
      crashedAt := None;
    }
  }
}
