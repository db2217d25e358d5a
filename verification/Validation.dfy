/**
Ref commands of `src/worker/git/operations/validation.ts`: compare-and-swap
validation against the current refs, and their application in order.
 */
module Validation {
  import opened Bytes

  datatype Ref = Ref(name: string, oid: string)
  datatype ReceiveCommand = ReceiveCommand(oldOid: string, newOid: string, ref: string)
  datatype ReceiveStatus = ReceiveStatus(ref: string, ok: bool, msg: string)

  const ZERO_OID: string := "0000000000000000000000000000000000000000"

  // ---------- Strings ----------

  function LowerChar(c: char): char {
    if 'A' <= c <= 'Z' then c + 32 as char else c
  }

  function Lower(s: string): (r: string)
    ensures |r| == |s|
  {
    seq(|s|, i requires 0 <= i < |s| => LowerChar(s[i]))
  }

  /** Only the capital letters change, each to its small letter. */
  lemma {:induction false} LowerIsAscii(c: char)
    ensures LowerChar(c) != c <==> 'A' <= c <= 'Z'
    ensures 'A' <= c <= 'Z' ==> LowerChar(c) == "abcdefghijklmnopqrstuvwxyz"[c as int - 'A' as int]
  {
  }

  predicate IsZero(oid: string) {
    |oid| == 40 && forall i :: 0 <= i < 40 ==> oid[i] == '0'
  }

  predicate StartsWith(s: string, prefix: string) {
    |prefix| <= |s| && s[..|prefix|] == prefix
  }

  predicate EndsWith(s: string, suffix: string) {
    |suffix| <= |s| && s[|s| - |suffix|..] == suffix
  }

  predicate Includes(s: string, part: string) {
    StartsWith(s, part) || (s != "" && Includes(s[1..], part))
  }

  /** `s.split("/")`. */
  function Split(s: string): (parts: seq<string>)
    ensures |parts| > 0
  {
    if s == [] then [""]
    else
      var rest := Split(s[1..]);
      if s[0] == '/' then [""] + rest else [[s[0]] + rest[0]] + rest[1..]
  }

  predicate ForbiddenChar(c: char) {
    c <= ' ' || c == '~' || c == '^' || c == ':' || c == '?' || c == '*' || c == '['
  }

  lemma {:induction false} ForbiddenIsListed(c: char)
    ensures ForbiddenChar(c) <==> c as int <= 32 || c in "~^:?*["
  {
  }

  predicate IsValidRefName(name: string) {
    && name != "" && name != "HEAD"
    && StartsWith(name, "refs/")
    && (forall i :: 0 <= i < |name| ==> !ForbiddenChar(name[i]))
    && !Includes(name, "//") && !StartsWith(name, "/") && !EndsWith(name, "/")
    && (forall i :: 0 <= i < |Split(name)| ==> Split(name)[i] != "." && Split(name)[i] != "..")
    && !EndsWith(name, ".") && !EndsWith(name, ".lock")
    && !Includes(name, "@{")
    && !Includes(name, "\\")
  }

  // ---------- Insertion-ordered maps of refs ----------

  /** `map.get(name)`. */
  function Find(m: seq<Ref>, name: string): Option<string> {
    if m == [] then None else if m[0].name == name then Some(m[0].oid) else Find(m[1..], name)
  }

  /** A missing name and an empty id are both falsy. */
  function Lookup(m: seq<Ref>, name: string): string {
    match Find(m, name)
    case None => ""
    case Some(oid) => oid
  }

  /** No two refs share a name. */
  ghost predicate UniqueNames(m: seq<Ref>) {
    m == [] || (Find(m[1..], m[0].name).None? && UniqueNames(m[1..]))
  }

  /** `map.set` keeps the position of a name it already holds. */
  function MapSet(m: seq<Ref>, name: string, oid: string): seq<Ref> {
    if m == [] then [Ref(name, oid)]
    else if m[0].name == name then [Ref(name, oid)] + m[1..]
    else [m[0]] + MapSet(m[1..], name, oid)
  }

  function MapDelete(m: seq<Ref>, name: string): seq<Ref> {
    if m == [] then []
    else if m[0].name == name then m[1..]
    else [m[0]] + MapDelete(m[1..], name)
  }

  /** `new Map(refs)` on top of `m`: later duplicates win. */
  function MapAdd(m: seq<Ref>, refs: seq<Ref>): seq<Ref>
    decreases |refs|
  {
    if refs == [] then m else MapAdd(MapSet(m, refs[0].name, refs[0].oid), refs[1..])
  }

  function MapOf(refs: seq<Ref>): seq<Ref> {
    MapAdd([], refs)
  }

  lemma {:induction false} SetThenFind(m: seq<Ref>, name: string, oid: string, other: string)
    ensures Find(MapSet(m, name, oid), other) == if other == name then Some(oid) else Find(m, other)
  {
    if m != [] && m[0].name != name {
      SetThenFind(m[1..], name, oid, other);
    }
  }

  lemma {:induction false} SetKeepsUnique(m: seq<Ref>, name: string, oid: string)
    requires UniqueNames(m)
    ensures UniqueNames(MapSet(m, name, oid))
  {
    if m != [] && m[0].name != name {
      SetKeepsUnique(m[1..], name, oid);
      SetThenFind(m[1..], name, oid, m[0].name);
    }
  }

  lemma {:induction false} DeleteThenFind(m: seq<Ref>, name: string, other: string)
    requires UniqueNames(m)
    ensures Find(MapDelete(m, name), other) == if other == name then None else Find(m, other)
  {
    if m != [] && m[0].name != name {
      DeleteThenFind(m[1..], name, other);
    }
  }

  lemma {:induction false} DeleteKeepsUnique(m: seq<Ref>, name: string)
    requires UniqueNames(m)
    ensures UniqueNames(MapDelete(m, name))
  {
    if m != [] && m[0].name != name {
      DeleteKeepsUnique(m[1..], name);
      DeleteThenFind(m[1..], name, m[0].name);
    }
  }

  lemma {:induction false} AddKeepsUnique(m: seq<Ref>, refs: seq<Ref>)
    requires UniqueNames(m)
    ensures UniqueNames(MapAdd(m, refs))
    decreases |refs|
  {
    if refs != [] {
      SetKeepsUnique(m, refs[0].name, refs[0].oid);
      AddKeepsUnique(MapSet(m, refs[0].name, refs[0].oid), refs[1..]);
    }
  }

  lemma {:induction false} FindInAppend(m: seq<Ref>, refs: seq<Ref>, name: string)
    ensures Find(m + refs, name) == if Find(m, name).Some? then Find(m, name) else Find(refs, name)
  {
    if m == [] {
      assert m + refs == refs;
    } else {
      assert (m + refs)[1..] == m[1..] + refs;
      FindInAppend(m[1..], refs, name);
    }
  }

  lemma {:induction false} SetAppends(m: seq<Ref>, name: string, oid: string)
    requires Find(m, name).None?
    ensures MapSet(m, name, oid) == m + [Ref(name, oid)]
  {
    if m != [] {
      SetAppends(m[1..], name, oid);
    }
  }

  /** A name that stands after `m` is not in `m`. */
  lemma {:induction false} UniqueAcross(m: seq<Ref>, r: Ref, rest: seq<Ref>)
    requires UniqueNames(m + ([r] + rest))
    ensures Find(m, r.name).None?
  {
    if m != [] {
      assert (m + ([r] + rest))[1..] == m[1..] + ([r] + rest);
      UniqueAcross(m[1..], r, rest);
      FindInAppend(m[1..], [r] + rest, m[0].name);
    }
  }

  /** Putting refs with distinct names in a map changes nothing. */
  lemma {:induction false} AddAppends(m: seq<Ref>, refs: seq<Ref>)
    requires UniqueNames(m + refs)
    ensures MapAdd(m, refs) == m + refs
    decreases |refs|
  {
    if refs == [] {
      assert m + refs == m;
    } else {
      var r, rest := refs[0], refs[1..];
      assert refs == [r] + rest;
      UniqueAcross(m, r, rest);
      SetAppends(m, r.name, r.oid);
      AppendAssociates(m, [r], rest);
      AddAppends(m + [r], rest);
    }
  }

  lemma {:induction false} MapOfUnique(refs: seq<Ref>)
    requires UniqueNames(refs)
    ensures MapOf(refs) == refs
  {
    assert [] + refs == refs;
    AddAppends([], refs);
  }

  /** The last ref of a name. */
  function LastRef(refs: seq<Ref>, name: string): Option<string> {
    if refs == [] then None
    else if refs[|refs| - 1].name == name then Some(refs[|refs| - 1].oid)
    else LastRef(refs[..|refs| - 1], name)
  }

  lemma {:induction false} AddSnoc(m: seq<Ref>, refs: seq<Ref>, r: Ref)
    ensures MapAdd(m, refs + [r]) == MapSet(MapAdd(m, refs), r.name, r.oid)
    decreases |refs|
  {
    if refs == [] {
      assert [] + [r] == [r] && [r][1..] == [];
    } else {
      assert (refs + [r])[1..] == refs[1..] + [r];
      AddSnoc(MapSet(m, refs[0].name, refs[0].oid), refs[1..], r);
    }
  }

  /** In a map made of refs later duplicates win. */
  lemma {:induction false} LaterDuplicatesWin(refs: seq<Ref>, name: string)
    ensures Find(MapOf(refs), name) == LastRef(refs, name)
  {
    if refs != [] {
      var init, r := refs[..|refs| - 1], refs[|refs| - 1];
      assert refs == init + [r];
      LaterDuplicatesWin(init, name);
      AddSnoc([], init, r);
      SetThenFind(MapOf(init), r.name, r.oid, name);
    }
  }

  function NamesOf(m: seq<Ref>): seq<string> {
    if m == [] then [] else [m[0].name] + NamesOf(m[1..])
  }

  /** Setting a name that is there keeps every place; a new name goes last. */
  lemma {:induction false} SetKeepsPlaces(m: seq<Ref>, name: string, oid: string)
    ensures NamesOf(MapSet(m, name, oid)) == if Find(m, name).Some? then NamesOf(m) else NamesOf(m) + [name]
  {
    if m != [] && m[0].name != name {
      SetKeepsPlaces(m[1..], name, oid);
    }
  }

  // ---------- Validation ----------

  function ValidateOne(m: seq<Ref>, command: ReceiveCommand): ReceiveStatus {
    var current := Lookup(m, command.ref);
    var stale := Lower(current) != Lower(command.oldOid);
    if IsZero(command.newOid) then
      if current == "" then ReceiveStatus(command.ref, false, "no such ref")
      else if stale then ReceiveStatus(command.ref, false, "stale old-oid")
      else ReceiveStatus(command.ref, true, "")
    else if current == "" then
      if !IsZero(command.oldOid) then ReceiveStatus(command.ref, false, "expected zero old-oid")
      else ReceiveStatus(command.ref, true, "")
    else if stale then ReceiveStatus(command.ref, false, "stale old-oid")
    else ReceiveStatus(command.ref, true, "")
  }

  function Validate(refs: seq<Ref>, commands: seq<ReceiveCommand>): (statuses: seq<ReceiveStatus>)
    ensures |statuses| == |commands|
  {
    seq(|commands|, i requires 0 <= i < |commands| => ValidateOne(MapOf(refs), commands[i]))
  }

  predicate AllOk(statuses: seq<ReceiveStatus>) {
    forall i :: 0 <= i < |statuses| ==> statuses[i].ok
  }

  method ValidateReceiveCommands(currentRefs: seq<Ref>, commands: seq<ReceiveCommand>)
    returns (statuses: seq<ReceiveStatus>)
    ensures statuses == Validate(currentRefs, commands)
  {
    var refMap := MapOf(currentRefs);
    statuses := [];
    for i := 0 to |commands|
      invariant |statuses| == i && forall j :: 0 <= j < i ==> statuses[j] == ValidateOne(refMap, commands[j])
    {
      var command := commands[i];
      var current := Lookup(refMap, command.ref);
      if IsZero(command.newOid) {
        if current == "" {
          statuses := statuses + [ReceiveStatus(command.ref, false, "no such ref")];
          continue;
        }
        if Lower(current) != Lower(command.oldOid) {
          statuses := statuses + [ReceiveStatus(command.ref, false, "stale old-oid")];
          continue;
        }
        statuses := statuses + [ReceiveStatus(command.ref, true, "")];
        continue;
      }
      if current == "" {
        if !IsZero(command.oldOid) {
          statuses := statuses + [ReceiveStatus(command.ref, false, "expected zero old-oid")];
          continue;
        }
        statuses := statuses + [ReceiveStatus(command.ref, true, "")];
        continue;
      }
      if Lower(current) != Lower(command.oldOid) {
        statuses := statuses + [ReceiveStatus(command.ref, false, "stale old-oid")];
        continue;
      }
      statuses := statuses + [ReceiveStatus(command.ref, true, "")];
    }
  }

  /** The last ref of this name has an id. */
  predicate Present(refs: seq<Ref>, name: string) {
    LastRef(refs, name).Some? && LastRef(refs, name).value != ""
  }

  /** The value a push must expect: the ref's id, or the zero id when it is absent. */
  function ExpectedOld(refs: seq<Ref>, name: string): string {
    if Present(refs, name) then LastRef(refs, name).value else ZERO_OID
  }

  /**
  Validation is compare-and-swap: a command passes iff its old id is the current one
  up to letter case, absent counting as zero, and it does not delete an absent ref.
   */
  lemma {:induction false} ValidationIsCompareAndSwap(refs: seq<Ref>, commands: seq<ReceiveCommand>, i: nat)
    requires i < |commands|
    ensures Validate(refs, commands)[i].ok <==>
            && Lower(commands[i].oldOid) == Lower(ExpectedOld(refs, commands[i].ref))
            && (IsZero(commands[i].newOid) ==> Present(refs, commands[i].ref))
  {
    LaterDuplicatesWin(refs, commands[i].ref);
    ZeroIsCaseFree(commands[i].oldOid);
  }

  /** Every status names its ref, and gives a reason exactly when the command fails. */
  lemma {:induction false} StatusesNameRefs(refs: seq<Ref>, commands: seq<ReceiveCommand>, i: nat)
    requires i < |commands|
    ensures var status, present := Validate(refs, commands)[i], Present(refs, commands[i].ref);
            && status.ref == commands[i].ref && (status.ok <==> status.msg == "")
            && (status.msg == "no such ref" <==> !present && IsZero(commands[i].newOid))
            && (status.msg == "expected zero old-oid" <==>
                  !present && !IsZero(commands[i].newOid) && !IsZero(commands[i].oldOid))
            && (status.msg == "stale old-oid" <==>
                  present && Lower(LastRef(refs, commands[i].ref).value) != Lower(commands[i].oldOid))
  {
    LaterDuplicatesWin(refs, commands[i].ref);
  }

  lemma {:induction false} ZeroIsCaseFree(oid: string)
    ensures IsZero(oid) <==> Lower(oid) == Lower(ZERO_OID)
  {
    var low, zero := Lower(oid), Lower(ZERO_OID);
    assert forall i :: 0 <= i < 40 ==> zero[i] == '0';
    if low == zero {
      forall i | 0 <= i < 40 ensures oid[i] == '0' {
        assert low[i] == zero[i];
      }
    }
  }

  // ---------- Application ----------

  function ApplyOne(m: seq<Ref>, command: ReceiveCommand): seq<Ref> {
    if IsZero(command.newOid) then MapDelete(m, command.ref) else MapSet(m, command.ref, command.newOid)
  }

  function ApplyAll(m: seq<Ref>, commands: seq<ReceiveCommand>): seq<Ref>
    decreases |commands|
  {
    if commands == [] then m else ApplyAll(ApplyOne(m, commands[0]), commands[1..])
  }

  function Apply(refs: seq<Ref>, commands: seq<ReceiveCommand>): seq<Ref> {
    ApplyAll(MapOf(refs), commands)
  }

  method ApplyReceiveCommands(currentRefs: seq<Ref>, commands: seq<ReceiveCommand>) returns (refs: seq<Ref>)
    ensures refs == Apply(currentRefs, commands)
  {
    var refMap := MapOf(currentRefs);
    for i := 0 to |commands|
      invariant Apply(currentRefs, commands) == ApplyAll(refMap, commands[i..])
    {
      var command := commands[i];
      assert commands[i..][1..] == commands[i + 1..];
      if IsZero(command.newOid) {
        refMap := MapDelete(refMap, command.ref);
        continue;
      }
      refMap := MapSet(refMap, command.ref, command.newOid);
    }
    return refMap;
  }

  /** What the last command that names a ref leaves there: an id, or nothing. */
  function LastWrite(commands: seq<ReceiveCommand>, name: string): Option<Option<string>> {
    if commands == [] then None
    else if LastWrite(commands[1..], name).Some? then LastWrite(commands[1..], name)
    else if commands[0].ref != name then None
    else Some(if IsZero(commands[0].newOid) then None else Some(commands[0].newOid))
  }

  lemma {:induction false} ApplyAllEffect(m: seq<Ref>, commands: seq<ReceiveCommand>, name: string)
    requires UniqueNames(m)
    ensures UniqueNames(ApplyAll(m, commands))
    ensures Find(ApplyAll(m, commands), name) ==
            match LastWrite(commands, name)
            case None => Find(m, name)
            case Some(written) => written
    decreases |commands|
  {
    if commands != [] {
      var command := commands[0];
      SetKeepsUnique(m, command.ref, command.newOid);
      DeleteKeepsUnique(m, command.ref);
      SetThenFind(m, command.ref, command.newOid, name);
      DeleteThenFind(m, command.ref, name);
      ApplyAllEffect(ApplyOne(m, command), commands[1..], name);
    }
  }

  /** A ref that no command names is untouched; any other holds its last write; names stay unique. */
  lemma {:induction false} ApplyEffect(refs: seq<Ref>, commands: seq<ReceiveCommand>, name: string)
    ensures UniqueNames(Apply(refs, commands))
    ensures Find(Apply(refs, commands), name) ==
            match LastWrite(commands, name)
            case None => Find(MapOf(refs), name)
            case Some(written) => written
    ensures LastWrite(commands, name).None? <==> forall i :: 0 <= i < |commands| ==> commands[i].ref != name
  {
    AddKeepsUnique([], refs);
    ApplyAllEffect(MapOf(refs), commands, name);
    LastWriteNone(commands, name);
  }

  lemma {:induction false} LastWriteNone(commands: seq<ReceiveCommand>, name: string)
    ensures LastWrite(commands, name).None? <==> forall i :: 0 <= i < |commands| ==> commands[i].ref != name
  {
    if commands != [] {
      LastWriteNone(commands[1..], name);
      assert forall i :: 0 <= i < |commands[1..]| ==> commands[1..][i] == commands[i + 1];
      if LastWrite(commands, name).None? {
        forall i | 0 <= i < |commands| ensures commands[i].ref != name {
          assert i > 0 ==> commands[i] == commands[1..][i - 1];
        }
      }
    }
  }
}
