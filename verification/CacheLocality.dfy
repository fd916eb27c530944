/** The cache policy's rule for a parent directory: object names are redirected to their local copies. */
module CacheLocality {
  import opened NameHash
  import opened ComponentKey

  const VERIFIED_HIT: nat := 1

  const SUFFIX_LEN: nat := 6
  const OBJECT_LEN: nat := 32
  const WITNESSES: nat := 4

  /** The fields of struct cache_rule that a parent rule uses; expectedHash has WITNESSES entries. */
  datatype CacheRule = CacheRule(expectedHash: seq<nat>, state: nat, witnessCount: nat)

  function LocalSuffix(i: nat): Byte {
    match i
    case 0 => 46
    case 1 => 108
    case 2 => 111
    case 3 => 99
    case 4 => 97
    case 5 => 108
    case _ => 0
  }

  const LOCAL: seq<Byte> := Bytes(".local")

  const STATS: seq<Byte> := Bytes("stats")

  predicate IsLowerAlnum(c: Byte) {
    48 <= c <= 57 || 97 <= c <= 122
  }

  /** c is a character of the text. */
  predicate IsOneOf(c: Byte, text: string) {
    exists k :: 0 <= k < |text| && text[k] as int == c
  }

  /** 31 lower-case letters or digits, then M or R. */
  predicate IsObjectName(name: seq<Byte>) {
    && |name| == 32
    && (forall i :: 0 <= i < 31 ==> IsOneOf(name[i], "0123456789abcdefghijklmnopqrstuvwxyz"))
    && IsOneOf(name[31], "MR")
  }

  lemma LowerAlnumMeans(c: Byte)
    ensures IsLowerAlnum(c) <==> IsOneOf(c, "0123456789abcdefghijklmnopqrstuvwxyz")
  {
    var text := "0123456789abcdefghijklmnopqrstuvwxyz";
    assert forall k :: 0 <= k < 10 ==> text[k] as int == 48 + k;
    assert forall k :: 10 <= k < 36 ==> text[k] as int == 87 + k;
    if 48 <= c <= 57 {
      assert text[c - 48] as int == c;
    } else if 97 <= c <= 122 {
      assert text[c - 87] as int == c;
    }
  }

  lemma FinalLetters(c: Byte)
    ensures IsOneOf(c, "MR") <==> c == 77 || c == 82
  {
    assert "MR"[0] as int == 77 && "MR"[1] as int == 82;
  }

  predicate HasLocalSuffix(name: seq<Byte>) {
    |name| > SUFFIX_LEN && name[|name| - SUFFIX_LEN..] == LOCAL
  }

  /** What the suffix test answers: it overlooks names of NAME_MAX bytes. */
  predicate FindsLocalSuffix(nameLen: nat, name: seq<Byte>) {
    nameLen < NAME_MAX && HasLocalSuffix(name)
  }

  /** 58 letters, then ".local". */
  function LongestSuffixed(): seq<Byte> {
    seq(NAME_MAX - SUFFIX_LEN, _ => 97) + LOCAL
  }

  /** A name of NAME_MAX bytes can end in ".local" without the test finding it. */
  lemma SuffixTestMissesLongest()
    ensures |LongestSuffixed()| == NAME_MAX && HasLocalSuffix(LongestSuffixed())
    ensures !FindsLocalSuffix(NAME_MAX, LongestSuffixed())
  {
    assert LongestSuffixed()[NAME_MAX - SUFFIX_LEN..] == LOCAL;
  }

  /** One of the rule's witnesses is the hash of the name. */
  predicate Witnessed(rule: CacheRule, name: seq<Byte>)
    requires |rule.expectedHash| == WITNESSES
  {
    && 1 <= rule.witnessCount <= WITNESSES
    && exists k :: 0 <= k < rule.witnessCount && rule.expectedHash[k] == Hash(name)
  }

  /** When a parent rule redirects: state 1 is a verified hit. */
  predicate Redirects(rule: CacheRule, name: seq<Byte>)
    requires |rule.expectedHash| == WITNESSES
  {
    rule.state == 1 && IsObjectName(name) && Witnessed(rule, name)
  }

  method NameIsObject(ctx: Context) returns (r: bool)
    requires ctx.Valid()
    ensures r <==> ctx.nameLen == OBJECT_LEN && IsObjectName(ctx.Name())
  {
    hide IsOneOf, IsLowerAlnum;
    if ctx.nameLen != OBJECT_LEN {
      return false;
    }
    assert forall k :: 0 <= k < OBJECT_LEN ==> ctx.Name()[k] == ctx.name[k];
    for i := 0 to OBJECT_LEN - 1
      invariant forall k :: 0 <= k < i ==> IsOneOf(ctx.name[k], "0123456789abcdefghijklmnopqrstuvwxyz")
    {
      LowerAlnumMeans(ctx.name[i]);
      if !IsLowerAlnum(ctx.name[i]) {
        return false;
      }
    }
    FinalLetters(ctx.name[OBJECT_LEN - 1]);
    r := ctx.name[OBJECT_LEN - 1] == 77 || ctx.name[OBJECT_LEN - 1] == 82;
  }

  /** Searches the suffix at the one place where the length allows it, in a bounded loop. */
  method NameHasLocalSuffix(ctx: Context) returns (r: bool)
    requires ctx.Valid()
    ensures r <==> FindsLocalSuffix(ctx.nameLen, ctx.Name())
  {
    hide HasLocalSuffix;
    if ctx.nameLen <= SUFFIX_LEN {
      TooShort(ctx.Name());
      return false;
    }
    for i := 0 to NAME_MAX - SUFFIX_LEN
      invariant ctx.nameLen < i + SUFFIX_LEN ==> !HasLocalSuffix(ctx.Name())
    {
      if ctx.nameLen == i + SUFFIX_LEN {
        SuffixAt(ctx.Name(), i);
        assert forall k :: 0 <= k < ctx.nameLen ==> ctx.Name()[k] == ctx.name[k];
        if ctx.name[i] == 46 && ctx.name[i + 1] == 108 && ctx.name[i + 2] == 111 && ctx.name[i + 3] == 99
          && ctx.name[i + 4] == 97 && ctx.name[i + 5] == 108 {
          return true;
        }
      }
    }
    r := false;
  }

  lemma TooShort(name: seq<Byte>)
    requires |name| <= SUFFIX_LEN
    ensures !HasLocalSuffix(name)
  {
  }

  lemma SuffixAt(name: seq<Byte>, i: nat)
    requires |name| == i + SUFFIX_LEN
    ensures HasLocalSuffix(name) <==>
              && i > 0
              && name[i] == 46 && name[i + 1] == 108 && name[i + 2] == 111
              && name[i + 3] == 99 && name[i + 4] == 97 && name[i + 5] == 108
  {
    var tail := name[i..];
    assert forall k :: 0 <= k < SUFFIX_LEN ==> tail[k] == name[i + k];
    if tail == LOCAL {
      assert tail[0] == 46 && tail[1] == 108 && tail[2] == 111 && tail[3] == 99 && tail[4] == 97 && tail[5] == 108;
    }
  }

  method ParentNameWitnessOk(ctx: Context, rule: CacheRule) returns (r: bool)
    requires ctx.Valid() && |rule.expectedHash| == WITNESSES
    ensures r <==> Witnessed(rule, ctx.Name())
  {
    hide Hash;
    if rule.witnessCount == 0 || rule.witnessCount > WITNESSES {
      return false;
    }
    var hash := ComponentNameHash(ctx.name, ctx.nameLen);
    if rule.witnessCount > 0 && rule.expectedHash[0] == hash {
      return true;
    }
    if rule.witnessCount > 1 && rule.expectedHash[1] == hash {
      return true;
    }
    if rule.witnessCount > 2 && rule.expectedHash[2] == hash {
      return true;
    }
    if rule.witnessCount > 3 && rule.expectedHash[3] == hash {
      return true;
    }
    r := false;
  }

  /** An object name is short enough, is not "stats" and does not end in ".local": those checks decide nothing. */
  lemma ObjectNamesPassOtherChecks(name: seq<Byte>)
    requires IsObjectName(name)
    ensures |name| <= NAME_MAX - SUFFIX_LEN && name != STATS && !HasLocalSuffix(name)
  {
    assert name[OBJECT_LEN - SUFFIX_LEN..][SUFFIX_LEN - 1] == name[OBJECT_LEN - 1];
  }

  /**
    Redirects exactly the object names whose hash the rule witnesses, to the name with ".local" appended; otherwise
    it passes and leaves the context alone.
   */
  method LookupParentRule(ctx: Context, rule: CacheRule) returns (action: nat)
    requires ctx.Valid() && |rule.expectedHash| == WITNESSES
    modifies ctx`redirectNameLen, ctx.redirectName
    ensures action == if ctx.nameLen <= 64 && Redirects(rule, ctx.name[..ctx.nameLen]) then 1 else 0
    ensures if action == 1 then
              && ctx.redirectNameLen == 38
              && ctx.redirectName[..38] == ctx.name[..32] + Bytes(".local")
              && ctx.redirectName[38..] == old(ctx.redirectName[38..])
            else
              && ctx.redirectNameLen == old(ctx.redirectNameLen)
              && ctx.redirectName[..] == old(ctx.redirectName[..])
  {
    hide Witnessed, HasLocalSuffix, IsObjectName;
    ObjectLength(ctx.Name());
    if rule.state != VERIFIED_HIT {
      return PASS;
    }
    if ctx.nameLen > NAME_MAX - SUFFIX_LEN {
      return PASS;
    }
    // The three tests read only, so making them all before deciding changes nothing.
    var isStats := ctx.NameIs(STATS);
    var isObject := NameIsObject(ctx);
    var hasSuffix := NameHasLocalSuffix(ctx);
    if isObject {
      ObjectNamesPassOtherChecks(ctx.Name());
    }
    if isStats || !isObject || hasSuffix {
      return PASS;
    }
    var witnessed := ParentNameWitnessOk(ctx, rule);
    if !witnessed {
      return PASS;
    }
    WriteLocalName(ctx);
    action := REDIRECT;
  }

  lemma ObjectLength(name: seq<Byte>)
    ensures IsObjectName(name) ==> |name| == OBJECT_LEN
  {
  }

  method WriteLocalName(ctx: Context)
    requires ctx.Valid() && ctx.nameLen <= NAME_MAX - SUFFIX_LEN
    modifies ctx`redirectNameLen, ctx.redirectName
    ensures ctx.redirectNameLen == ctx.nameLen + SUFFIX_LEN
    ensures ctx.redirectName[..ctx.nameLen + SUFFIX_LEN] == ctx.Name() + LOCAL
    ensures ctx.redirectName[ctx.nameLen + SUFFIX_LEN..] == old(ctx.redirectName[ctx.nameLen + SUFFIX_LEN..])
  {
    var n := ctx.nameLen;
    ctx.redirectNameLen := n + SUFFIX_LEN;
    for i := 0 to NAME_MAX
      invariant ctx.redirectNameLen == n + SUFFIX_LEN
      invariant forall k :: 0 <= k < i && k < n ==> ctx.redirectName[k] == ctx.name[k]
      invariant forall k :: n <= k < i && k < n + SUFFIX_LEN ==> ctx.redirectName[k] == LocalSuffix(k - n)
      invariant forall k :: n + SUFFIX_LEN <= k < NAME_MAX ==> ctx.redirectName[k] == old(ctx.redirectName[k])
    {
      if i < n {
        ctx.redirectName[i] := ctx.name[i];
      } else if i < n + SUFFIX_LEN {
        ctx.redirectName[i] := LocalSuffix(i - n);
      }
    }
    assert forall k :: 0 <= k < SUFFIX_LEN ==> LOCAL[k] == LocalSuffix(k);
  }

  /** A rule with one witness redirects no name that differs from a redirected one in a single byte. */
  lemma WitnessTellsNeighboursApart(rule: CacheRule, name: seq<Byte>, other: seq<Byte>, k: nat)
    requires |rule.expectedHash| == WITNESSES && rule.witnessCount == 1 && Redirects(rule, name)
    requires |other| == |name| && k < |name| && other[k] != name[k]
    requires forall i :: 0 <= i < |name| && i != k ==> other[i] == name[i]
    ensures !Redirects(rule, other)
  {
    hide Hash;
    OneByteChangesHash(name, other, k);
  }
}
