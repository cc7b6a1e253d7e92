/** afl_mutate: the mutations on the buffer in place, and the loop over them. */
module HavocEngine {
  import opened Words
  import opened HavocWords
  import opened HavocArith
  import opened HavocShuffle
  import opened HavocNumber
  import opened HavocSpec
  import opened HavocRandom

  /** The repeat-until of MUT_SWITCH and MUT_SHUFFLE: a number below the limit other than `avoid`. */
  method RandOther(limit: nat, avoid: nat) returns (r: nat)
    requires limit >= 2
    ensures r < limit && r != avoid
  {
    assert (if avoid == 0 then 1 else 0) != avoid;
    r :| 0 <= r < limit && r != avoid;
  }

  /** Any byte. */
  method RandByte() returns (b: Byte) {
    b := *;
  }

  /** The cases of choose_block_len. */
  datatype LengthClass = Small | Medium | Large | Huge

  function LowOf(c: LengthClass): nat {
    match c
    case Small => 1
    case Medium => BLK_SMALL
    case Large => BLK_MEDIUM
    case Huge => BLK_LARGE
  }

  function HighOf(c: LengthClass): nat {
    match c
    case Small => BLK_SMALL
    case Medium => BLK_MEDIUM
    case Large => BLK_LARGE
    case Huge => BLK_XL
  }

  /** Longer blocks come with later queue cycles, and not in the first ten minutes. */
  predicate ClassOpen(env: Env, c: LengthClass) {
    c.Small? || (env.runOver10m && env.queueCycle >= if c.Medium? then 2 else 3)
  }

  /** The lengths of a class under a limit; a class that starts at or above the limit starts at 1. */
  predicate LengthOf(c: LengthClass, limit: nat, n: nat) {
    if limit == 0 then n == 1
    else (if LowOf(c) >= limit then 1 else LowOf(c)) <= n <= HighOf(c) && n <= limit
  }

  /** choose_block_len; for the limit 0 the 32-bit arithmetic wraps and gives 1. */
  method ChooseBlockLen(env: Env, limit: nat) returns (n: nat, ghost kind: LengthClass)
    requires limit < TWO32
    ensures ClassOpen(env, kind) && LengthOf(kind, limit, n)
    ensures 1 <= n <= BLK_XL && (n <= limit || (limit == 0 && n == 1))
    ensures !env.runOver10m || env.queueCycle <= 1 ==> n <= BLK_SMALL
    ensures env.queueCycle == 2 ==> n <= BLK_MEDIUM
  {
    var rlim := if env.queueCycle < 3 then env.queueCycle else 3;
    if !env.runOver10m { rlim := 1; }
    var pick := RandBelow(rlim);
    var lo, hi := 1, BLK_SMALL;
    kind := Small;
    if pick == 1 {
      lo, hi := BLK_SMALL, BLK_MEDIUM;
      kind := Medium;
    } else if pick != 0 {
      var large := RandBelow(10);
      if large != 0 {
        lo, hi := BLK_MEDIUM, BLK_LARGE;
        kind := Large;
      } else {
        lo, hi := BLK_LARGE, BLK_XL;
        kind := Huge;
      }
    }
    if lo >= limit { lo := 1; }
    var cap := if hi < limit then hi else limit;
    var range := (cap + TWO32 - lo + 1) % TWO32;
    assert range == cap - lo + 1;
    var r := RandBelow(range);
    n := lo + r;
  }

  /** The 37 mutations, in the order of the enumeration. */
  datatype Kind =
    | FLIPBIT | INTERESTING8 | INTERESTING16 | INTERESTING16BE | INTERESTING32 | INTERESTING32BE
    | ARITH8_ | ARITH8 | ARITH16_ | ARITH16BE_ | ARITH16 | ARITH16BE | ARITH32_ | ARITH32BE_ | ARITH32 | ARITH32BE
    | RAND8 | CLONE_COPY | CLONE_FIXED | OVERWRITE_COPY | OVERWRITE_FIXED | BYTEADD | BYTESUB | FLIP8 | SWITCH
    | DEL | SHUFFLE | DELONE | INSERTONE | ASCIINUM | INSERTASCIINUM
    | EXTRA_OVERWRITE | EXTRA_INSERT | AUTO_EXTRA_OVERWRITE | AUTO_EXTRA_INSERT | SPLICE_OVERWRITE | SPLICE_INSERT

  /** The choices that belong to a kind. */
  ghost predicate OfKind(k: Kind, c: Choice) {
    match k
    case FLIPBIT => c.FlipBit?
    case INTERESTING8 => c.Interesting8?
    case INTERESTING16 => c.Interesting16? && !c.big
    case INTERESTING16BE => c.Interesting16? && c.big
    case INTERESTING32 => c.Interesting32? && !c.big
    case INTERESTING32BE => c.Interesting32? && c.big
    case ARITH8_ => c.Arith8? && c.sub
    case ARITH8 => c.Arith8? && !c.sub
    case ARITH16_ => c.Arith16? && !c.big && c.sub
    case ARITH16BE_ => c.Arith16? && c.big && c.sub
    case ARITH16 => c.Arith16? && !c.big && !c.sub
    case ARITH16BE => c.Arith16? && c.big && !c.sub
    case ARITH32_ => c.Arith32? && !c.big && c.sub
    case ARITH32BE_ => c.Arith32? && c.big && c.sub
    case ARITH32 => c.Arith32? && !c.big && !c.sub
    case ARITH32BE => c.Arith32? && c.big && !c.sub
    case RAND8 => c.Rand8?
    case CLONE_COPY => c.CloneCopy?
    case CLONE_FIXED => c.CloneFixed?
    case OVERWRITE_COPY => c.OverwriteCopy?
    case OVERWRITE_FIXED => c.OverwriteFixed?
    case BYTEADD => c.ByteAdd?
    case BYTESUB => c.ByteSub?
    case FLIP8 => c.Flip8?
    case SWITCH => c.Switch?
    case DEL => c.Del?
    case SHUFFLE => c.Shuffle?
    case DELONE => c.DelOne?
    case INSERTONE => c.InsertOne?
    case ASCIINUM => c.AsciiNum?
    case INSERTASCIINUM => c.InsertAsciiNum?
    case EXTRA_OVERWRITE => c.ExtraOverwrite? && !c.auto
    case EXTRA_INSERT => c.ExtraInsert? && !c.auto
    case AUTO_EXTRA_OVERWRITE => c.ExtraOverwrite? && c.auto
    case AUTO_EXTRA_INSERT => c.ExtraInsert? && c.auto
    case SPLICE_OVERWRITE => c.SpliceOverwrite?
    case SPLICE_INSERT => c.SpliceInsert?
  }

  /** What one attempt of the step loop ends with. */
  datatype Outcome = Retry | Done(c: Choice)

  ghost predicate NoDigits(s: seq<Byte>) {
    forall k :: 0 <= k < |s| ==> !IsDigit(s[k])
  }

  /** When a kind may give up and have another one drawn; the kinds not listed never do. */
  ghost predicate MayRetry(env: Env, k: Kind, s: seq<Byte>) {
    match k
    case CLONE_COPY | CLONE_FIXED => |s| + BLK_XL >= env.maxLen && |s| >= 8
    case INSERTONE => |s| >= 2 && |s| == env.maxLen
    case ASCIINUM => (NoDigits(s) && |s| >= 8) || (|s| >= 4 && |s| + 6 > env.maxLen)
    case INSERTASCIINUM => |s| >= 8
    case EXTRA_OVERWRITE => env.extras == [] || exists x :: x in env.extras && |x| > |s|
    case AUTO_EXTRA_OVERWRITE => env.autoExtras == [] || exists x :: x in env.autoExtras && |x| > |s|
    case EXTRA_INSERT => env.extras == [] || exists x :: x in env.extras && |s| + |x| > env.maxLen
    case AUTO_EXTRA_INSERT => env.autoExtras == [] || exists x :: x in env.autoExtras && |s| + |x| > env.maxLen
    case SPLICE_OVERWRITE => env.splice == []
    case SPLICE_INSERT => env.splice == [] || |s| + BLK_XL > env.maxLen
    case _ => false
  }

  /** When a kind counts as a step but leaves the test case alone, because it is too short. */
  ghost predicate MaySpare(env: Env, k: Kind, s: seq<Byte>) {
    match k
    case INTERESTING16 | INTERESTING16BE | ARITH16_ | ARITH16BE_ | ARITH16 | ARITH16BE => |s| < 2
    case INTERESTING32 | INTERESTING32BE | ARITH32_ | ARITH32BE_ | ARITH32 | ARITH32BE => |s| < 4
    case CLONE_COPY | CLONE_FIXED => |s| + BLK_XL >= env.maxLen && |s| < 8
    case OVERWRITE_COPY | OVERWRITE_FIXED | DEL | DELONE | INSERTONE => |s| < 2
    case SWITCH | SHUFFLE => |s| < 4
    case ASCIINUM => |s| < 4 || (NoDigits(s) && |s| < 8)
    case INSERTASCIINUM => |s| < 8
    case _ => false
  }

  /** The outcome is one that the guards of the kind permit. */
  ghost predicate Allowed(env: Env, k: Kind, before: seq<Byte>, o: Outcome) {
    match o
    case Retry => MayRetry(env, k, before)
    case Done(c) => if c.NoChange? then MaySpare(env, k, before) else OfKind(k, c)
  }

  /** One attempt: the outcome is allowed, and the test case is what it says. */
  ghost predicate Turn(env: Env, k: Kind, before: seq<Byte>, o: Outcome, after: seq<Byte>) {
    && Allowed(env, k, before, o)
    && match o
       case Retry => after == before
       case Done(c) => Legal(env, c, before) && after == Effect(env, c, before)
  }

  /** A run of attempts, one for each drawn kind. */
  ghost predicate Followed(env: Env, before: seq<Byte>, draws: seq<(Kind, nat)>, os: seq<Outcome>, after: seq<Byte>)
    decreases |os|
  {
    && |draws| == |os|
    && if os == [] then after == before
       else
         var n := |os| - 1;
         exists mid :: Followed(env, before, draws[..n], os[..n], mid) && Turn(env, draws[n].0, mid, os[n], after)
  }

  lemma FollowedSnoc(env: Env, before: seq<Byte>, draws: seq<(Kind, nat)>, os: seq<Outcome>, mid: seq<Byte>,
                     draw: (Kind, nat), o: Outcome, after: seq<Byte>)
    requires Followed(env, before, draws, os, mid) && Turn(env, draw.0, mid, o, after)
    ensures Followed(env, before, draws + [draw], os + [o], after)
    ensures Mutations(os + [o]) == Mutations(os) + if o.Done? then [o.c] else []
  {
    hide Turn;
    assert (draws + [draw])[..|os|] == draws && (os + [o])[..|os|] == os;
  }

  /** The mutations that a run of attempts completed. */
  function Mutations(os: seq<Outcome>): seq<Choice> {
    if os == [] then []
    else Mutations(os[..|os| - 1]) + if os[|os| - 1].Done? then [os[|os| - 1].c] else []
  }

  /** A run of attempts is the run of its completed mutations. */
  lemma {:induction false} FollowedMutates(env: Env, before: seq<Byte>, draws: seq<(Kind, nat)>,
                                           os: seq<Outcome>, after: seq<Byte>)
    requires Followed(env, before, draws, os, after)
    ensures Mutated(env, before, Mutations(os), after)
    decreases |os|
  {
    hide Legal, Effect, Allowed;
    if os != [] {
      var n := |os| - 1;
      var mid :| Followed(env, before, draws[..n], os[..n], mid) && Turn(env, draws[n].0, mid, os[n], after);
      FollowedMutates(env, before, draws[..n], os[..n], mid);
      if os[n].Done? {
        MutatedSnoc(env, before, Mutations(os[..n]), mid, os[n].c);
      } else {
        assert Mutations(os) == Mutations(os[..n]);
      }
    }
  }

  lemma SparedIs(env: Env, s: seq<Byte>)
    ensures Legal(env, NoChange, s) && Effect(env, NoChange, s) == s
  {
  }

  function ArithKind16(big: bool, sub: bool): Kind {
    if big then (if sub then ARITH16BE_ else ARITH16BE) else if sub then ARITH16_ else ARITH16
  }

  lemma Arith16Allowed(env: Env, s: seq<Byte>, off: nat, delta: nat, big: bool, sub: bool)
    ensures Allowed(env, ArithKind16(big, sub), s, Done(Arith16(off, delta, big, sub)))
    ensures |s| < 2 ==> Allowed(env, ArithKind16(big, sub), s, Done(NoChange))
  {
  }

  lemma Arith16Patch(env: Env, s: seq<Byte>, off: nat, delta: nat, big: bool, sub: bool)
    requires off + 2 <= |s| && 1 <= delta <= ARITH_MAX
    ensures LegalPatch(env, Arith16(off, delta, big, sub), s)
    ensures Patch(env, Arith16(off, delta, big, sub), s) == (off, Word16(s, off, delta, big, sub))
  {
    hide Word16;
  }

  function ArithKind32(big: bool, sub: bool): Kind {
    if big then (if sub then ARITH32BE_ else ARITH32BE) else if sub then ARITH32_ else ARITH32
  }

  lemma Arith32Allowed(env: Env, s: seq<Byte>, off: nat, delta: nat, big: bool, sub: bool)
    ensures Allowed(env, ArithKind32(big, sub), s, Done(Arith32(off, delta, big, sub)))
    ensures |s| < 4 ==> Allowed(env, ArithKind32(big, sub), s, Done(NoChange))
  {
  }

  lemma Arith32Patch(env: Env, s: seq<Byte>, off: nat, delta: nat, big: bool, sub: bool)
    requires off + 4 <= |s| && 1 <= delta <= ARITH_MAX
    ensures LegalPatch(env, Arith32(off, delta, big, sub), s)
    ensures Patch(env, Arith32(off, delta, big, sub), s) == (off, Word32(s, off, delta, big, sub))
  {
    hide Word32;
  }

  lemma DigitsPatch(env: Env, s: seq<Byte>, at: nat, n: nat, val: nat)
    requires 1 <= n <= 8 && at + n <= |s| && val < TWO64
    ensures LegalPatch(env, InsertAsciiNum(at, n, val), s)
    ensures Patch(env, InsertAsciiNum(at, n, val), s) == (at, LastDigits(val, n))
  {
    hide LastDigits;
  }

  lemma FixedIs(env: Env, s: seq<Byte>, to: nat, n: nat, value: Byte)
    requires to < |s| && 1 <= n && |s| + n <= env.maxLen
    ensures Legal(env, CloneFixed(to, n, value), s)
    ensures Effect(env, CloneFixed(to, n, value), s) == Insert(s, to, Fill(value, n))
  {
    hide Insert;
  }

  lemma OneIs(env: Env, s: seq<Byte>, to: nat, value: Byte)
    requires to < |s| && |s| + 1 <= env.maxLen
    ensures Legal(env, InsertOne(to, value), s)
    ensures Effect(env, InsertOne(to, value), s) == Insert(s, to, [value])
  {
    hide Insert;
  }

  lemma ExtraIs(env: Env, s: seq<Byte>, auto: bool, which: nat, at: nat)
    requires which < |Dictionary(env, auto)| && at <= |s| && |s| + |Dictionary(env, auto)[which]| <= env.maxLen
    ensures Legal(env, ExtraInsert(auto, which, at), s)
    ensures Effect(env, ExtraInsert(auto, which, at), s) == Insert(s, at, Dictionary(env, auto)[which])
  {
    hide Insert;
  }

  lemma SpliceIs(env: Env, s: seq<Byte>, to: nat, from: nat, n: nat)
    requires 1 <= n && from + n <= |env.splice| && to <= |s| && |s| + n <= env.maxLen
    ensures Legal(env, SpliceInsert(to, from, n), s)
    ensures Effect(env, SpliceInsert(to, from, n), s) == Insert(s, to, env.splice[from..from + n])
  {
    hide Insert;
  }

  lemma DelIs(env: Env, s: seq<Byte>, from: nat, n: nat)
    requires 1 <= n < |s| && from + n <= |s|
    ensures Legal(env, Del(from, n), s) && Effect(env, Del(from, n), s) == Delete(s, from, n)
  {
    hide Delete;
  }

  lemma DelOneIs(env: Env, s: seq<Byte>, from: nat)
    requires 2 <= |s| && from < |s|
    ensures Legal(env, DelOne(from), s) && Effect(env, DelOne(from), s) == Delete(s, from, 1)
  {
    hide Delete;
  }

  lemma SwitchIs(env: Env, s: seq<Byte>, a: nat, b: nat, n: nat)
    requires 1 <= n && a + n <= b && b + n <= |s|
    ensures Legal(env, Switch(a, b, n), s) && Effect(env, Switch(a, b, n), s) == ExchangeBlocks(s, a, b, n)
  {
    hide ExchangeBlocks;
  }

  lemma ShuffleIs(env: Env, s: seq<Byte>, off: nat, js: seq<nat>)
    requires 1 <= |js| < |s| && off + |js| <= |s| && Draws(js, |js|)
    ensures Legal(env, Shuffle(off, js), s) && Effect(env, Shuffle(off, js), s) == ShuffleEffect(s, off, js)
  {
    hide ShuffleEffect;
  }

  lemma CopyIs(env: Env, s: seq<Byte>, to: nat, from: nat, n: nat)
    requires 1 <= n < |s| && from + n <= |s| && to + n <= |s|
    ensures Legal(env, OverwriteCopy(to, from, n), s)
    ensures Effect(env, OverwriteCopy(to, from, n), s) == Overwrite(s, to, s[from..from + n])
  {
    hide Overwrite;
  }

  lemma CloneIs(env: Env, s: seq<Byte>, to: nat, from: nat, n: nat)
    requires to < |s| && 1 <= n && from + n <= |s| && |s| + n <= env.maxLen
    ensures Legal(env, CloneCopy(to, from, n), s)
    ensures Effect(env, CloneCopy(to, from, n), s) == Insert(s, to, s[from..from + n])
  {
    hide Insert;
  }

  class Havoc {
    const env: Env
    const buf: array<Byte>
    const tmp: array<Byte>
    var len: nat

    ghost predicate Valid()
      reads this
    {
      && EnvOk(env) && buf != tmp
      && env.maxLen <= buf.Length && env.maxLen <= tmp.Length
      && 1 <= len <= env.maxLen
    }

    ghost function Contents(): seq<Byte>
      reads this, buf
      requires len <= buf.Length
    {
      buf[..len]
    }

    constructor (e: Env, b: array<Byte>, n: nat)
      requires EnvOk(e) && 1 <= n <= e.maxLen <= b.Length
      ensures Valid() && buf == b && env == e && len == n && fresh(tmp)
    {
      env, buf, len := e, b, n;
      tmp := new Byte[e.maxLen];
    }

    /** An attempt either left the test case alone or did one legal mutation. */
    ghost predicate Attempted(before: seq<Byte>, o: Outcome)
      reads this, buf
    {
      && Valid()
      && match o
         case Retry => Contents() == before
         case Done(c) => Legal(env, c, before) && Contents() == Effect(env, c, before)
    }

    // ---------- Moving bytes ----------

    /** memcpy or memmove into the buffer. */
    method Store(at: nat, bytes: seq<Byte>)
      requires Valid() && at + |bytes| <= len
      modifies buf
      ensures Valid() && Contents() == Overwrite(old(Contents()), at, bytes)
    {
      hide Overwrite;
      OverwritePrefix(buf[..], len, at, bytes);
      Put(buf, at, bytes);
      assert buf[..][..len] == buf[..len];
    }

    /** Head, inserted part and tail through the temporary buffer. */
    method Splice(from: nat, end: nat, bytes: seq<Byte>)
      requires Valid() && from <= end <= len && 1 <= len - (end - from) + |bytes| <= env.maxLen
      modifies this`len, buf, tmp
      ensures Valid() && Contents() == Replace(old(Contents()), from, end, bytes)
    {
      ghost var s := Contents();
      var n, mid := len - (end - from) + |bytes|, from + |bytes|;
      var head, tail := buf[..from], buf[end..len];
      SliceOfPrefix(buf[..], len, 0, from);
      SliceOfPrefix(buf[..], len, end, len);
      assert s[..from] == head && s[end..] == tail;
      CopyInto(tmp, 0, head);
      CopyInto(tmp, from, bytes);
      assert tmp[..mid] == head + bytes;
      CopyInto(tmp, mid, tail);
      assert tmp[..n] == tmp[..mid] + tmp[mid..n];
      len := n;
      CopyInto(buf, 0, tmp[..n]);
      assert buf[..n] == buf[0..n];
    }

    method InsertBytes(at: nat, bytes: seq<Byte>)
      requires Valid() && at <= len && len + |bytes| <= env.maxLen
      modifies this`len, buf, tmp
      ensures Valid() && Contents() == Insert(old(Contents()), at, bytes)
    {
      Splice(at, at, bytes);
    }

    /** memmove of the tail, then the dictionary entry: insertion without the temporary buffer. */
    method InsertInPlace(at: nat, bytes: seq<Byte>)
      requires Valid() && at <= len && len + |bytes| <= env.maxLen
      modifies this`len, buf
      ensures Valid() && Contents() == Insert(old(Contents()), at, bytes)
    {
      hide Overwrite, Insert;
      ghost var all, n := buf[..], len + |bytes|;
      ghost var mid := Overwrite(all, at + |bytes|, all[at..len]);
      Put(buf, at + |bytes|, buf[at..len]);
      Put(buf, at, bytes);
      ghost var now, want := buf[..], Insert(all[..len], at, bytes);
      forall k | 0 <= k < n
        ensures now[k] == want[k]
      {
        OverwriteAt(mid, at, bytes, k);
        OverwriteAt(all, at + |bytes|, all[at..len], k);
        InsertAt(all[..len], at, bytes, k);
      }
      len := len + |bytes|;
      assert now[..len] == want;
    }

    method DeleteBytes(at: nat, n: nat)
      requires Valid() && at + n <= len && n < len
      modifies this`len, buf
      ensures Valid() && Contents() == Delete(old(Contents()), at, n)
    {
      hide Overwrite, Delete;
      ghost var all, l := buf[..], len - n;
      Put(buf, at, buf[at + n..len]);
      ghost var now, want := buf[..], Delete(all[..len], at, n);
      forall k | 0 <= k < l
        ensures now[k] == want[k]
      {
        OverwriteAt(all, at, all[at + n..len], k);
        DeleteAt(all[..len], at, n, k);
      }
      len := len - n;
      assert now[..len] == want;
    }

    /** An in-place mutation, from its choice. */
    method Patched(c: Choice, at: nat, bytes: seq<Byte>) returns (o: Outcome)
      requires Valid() && IsPatch(c) && LegalPatch(env, c, Contents()) && (at, bytes) == Patch(env, c, Contents())
      modifies buf
      ensures Attempted(old(Contents()), o) && o == Done(c)
    {
      hide Patch, LegalPatch;
      Store(at, bytes);
      o := Done(c);
    }

    // ---------- Single bytes and words ----------

    method MutFlipBit() returns (o: Outcome)
      requires Valid()
      modifies buf
      ensures Attempted(old(Contents()), o) && Allowed(env, FLIPBIT, old(Contents()), o)
    {
      hide Legal, Effect;
      hide FlippedBit;
      var bit := RandBelow(8);
      var off := RandBelow(len);
      o := Patched(FlipBit(off, bit), off, [FlippedBit(buf[off], bit)]);
    }

    method MutInteresting8() returns (o: Outcome)
      requires Valid()
      modifies buf
      ensures Attempted(old(Contents()), o) && Allowed(env, INTERESTING8, old(Contents()), o)
    {
      hide Legal, Effect;
      var item := RandBelow(|env.interesting8|);
      var off := RandBelow(len);
      o := Patched(Interesting8(off, item), off, [env.interesting8[item]]);
    }

    method MutInteresting16(big: bool) returns (o: Outcome)
      requires Valid()
      modifies buf
      ensures Attempted(old(Contents()), o)
      ensures Allowed(env, if big then INTERESTING16BE else INTERESTING16, old(Contents()), o)
    {
      hide Legal, Effect;
      SparedIs(env, Contents());
      if len < 2 { return Done(NoChange); }
      var item := RandBelow(|env.interesting16|);
      var off := RandBelow(len - 1);
      var v := env.interesting16[item];
      SwapStoresBig(v, 0);
      o := Patched(Interesting16(off, item, big), off, LittleBytes16(if big then Swap16(v) else v));
    }

    method MutInteresting32(big: bool) returns (o: Outcome)
      requires Valid()
      modifies buf
      ensures Attempted(old(Contents()), o)
      ensures Allowed(env, if big then INTERESTING32BE else INTERESTING32, old(Contents()), o)
    {
      hide Legal, Effect;
      SparedIs(env, Contents());
      if len < 4 { return Done(NoChange); }
      var item := RandBelow(|env.interesting32|);
      var off := RandBelow(len - 3);
      var v := env.interesting32[item];
      SwapStoresBig(0, v);
      o := Patched(Interesting32(off, item, big), off, LittleBytes32(if big then Swap32(v) else v));
    }

    method MutArith8(sub: bool) returns (o: Outcome)
      requires Valid()
      modifies buf
      ensures Attempted(old(Contents()), o)
      ensures Allowed(env, if sub then ARITH8_ else ARITH8, old(Contents()), o)
    {
      hide Legal, Effect, Add8;
      var r := RandBelow(ARITH_MAX);
      var off := RandBelow(len);
      o := Patched(Arith8(off, 1 + r, sub), off, [Add8(buf[off], 1 + r, sub)]);
    }

    method MutArith16(big: bool, sub: bool) returns (o: Outcome)
      requires Valid()
      modifies buf
      ensures Attempted(old(Contents()), o)
      ensures Allowed(env, ArithKind16(big, sub), old(Contents()), o)
    {
      hide Legal, Effect, Word16, Stored16, LittleBytes16, Little16, Patch, LegalPatch, Allowed;
      SparedIs(env, Contents());
      Arith16Allowed(env, Contents(), 0, 1, big, sub);
      if len < 2 { return Done(NoChange); }
      var off := RandBelow(len - 1);
      var r := RandBelow(ARITH_MAX);
      var x := Little16(buf[off], buf[off + 1]);
      StoredIsWord16(Contents(), off, 1 + r, big, sub);
      Arith16Allowed(env, Contents(), off, 1 + r, big, sub);
      Arith16Patch(env, Contents(), off, 1 + r, big, sub);
      o := Patched(Arith16(off, 1 + r, big, sub), off, LittleBytes16(Stored16(x, 1 + r, big, sub)));
    }

    /** The big-endian addition is the one whose two swaps cancel. */
    method MutArith32(big: bool, sub: bool) returns (o: Outcome)
      requires Valid()
      modifies buf
      ensures Attempted(old(Contents()), o)
      ensures Allowed(env, ArithKind32(big, sub), old(Contents()), o)
    {
      hide Legal, Effect, Word32, Stored32, LittleBytes32, Little32, Patch, LegalPatch, Allowed;
      SparedIs(env, Contents());
      Arith32Allowed(env, Contents(), 0, 1, big, sub);
      if len < 4 { return Done(NoChange); }
      var off := RandBelow(len - 3);
      var r := RandBelow(ARITH_MAX);
      var x := Little32(buf[off], buf[off + 1], buf[off + 2], buf[off + 3]);
      StoredIsWord32(Contents(), off, 1 + r, big, sub);
      Arith32Allowed(env, Contents(), off, 1 + r, big, sub);
      Arith32Patch(env, Contents(), off, 1 + r, big, sub);
      o := Patched(Arith32(off, 1 + r, big, sub), off, LittleBytes32(Stored32(x, 1 + r, big, sub)));
    }

    /** The word that the four 32-bit cases hand to INSERT32. */
    function Stored32(x: bv32, delta: nat, big: bool, sub: bool): bv32
      requires delta < 256
    {
      if !big then Add32(x, delta, sub)
      else if sub then Swap32(Add32(Swap32(x), delta, sub))
      else Swap32(Swap32(Add32(x, delta, sub)))
    }

    lemma StoredIsWord32(s: seq<Byte>, off: nat, delta: nat, big: bool, sub: bool)
      requires off + 4 <= |s| && delta < 256
      ensures LittleBytes32(Stored32(Little32(s[off], s[off + 1], s[off + 2], s[off + 3]), delta, big, sub))
           == Word32(s, off, delta, big, sub)
    {
      hide Little32, Big32, Add32, Swap32, LittleBytes32, BigBytes32;
      var x := Little32(s[off], s[off + 1], s[off + 2], s[off + 3]);
      SwapReadsBig(s[off], s[off + 1], s[off + 2], s[off + 3]);
      SwapStoresBig(0, Add32(Swap32(x), delta, sub));
      SwapTwice(Add32(x, delta, sub));
    }

    /** The word that the four 16-bit cases hand to INSERT16. */
    function Stored16(x: bv16, delta: nat, big: bool, sub: bool): bv16
      requires delta < 256
    {
      if big then Swap16(Add16(Swap16(x), delta, sub)) else Add16(x, delta, sub)
    }

    lemma StoredIsWord16(s: seq<Byte>, off: nat, delta: nat, big: bool, sub: bool)
      requires off + 2 <= |s| && delta < 256
      ensures LittleBytes16(Stored16(Little16(s[off], s[off + 1]), delta, big, sub)) == Word16(s, off, delta, big, sub)
    {
      hide Little16, Big16, Add16, Swap16, LittleBytes16, BigBytes16;
      var x := Little16(s[off], s[off + 1]);
      SwapReadsBig(s[off], s[off + 1], 0, 0);
      SwapStoresBig(Add16(Swap16(x), delta, sub), 0);
    }

    method MutRand8() returns (o: Outcome)
      requires Valid()
      modifies buf
      ensures Attempted(old(Contents()), o) && Allowed(env, RAND8, old(Contents()), o)
    {
      hide Legal, Effect, Masked, Increment, Decrement;
      var off := RandBelow(len);
      var r := RandBelow(255);
      var mask := FromNum(1 + r);
      NotZero(r);
      o := Patched(Rand8(off, mask), off, [Masked(buf[off], mask)]);
    }

    lemma NotZero(r: nat)
      requires r < 255
      ensures FromNum(1 + r) != 0
    {
      hide FromNum;
      NumOfFromNum(1 + r);
      assert Num(0) == 0;
    }

    method MutByteAdd() returns (o: Outcome)
      requires Valid()
      modifies buf
      ensures Attempted(old(Contents()), o) && Allowed(env, BYTEADD, old(Contents()), o)
    {
      hide Legal, Effect, Masked, Increment, Decrement;
      var off := RandBelow(len);
      o := Patched(ByteAdd(off), off, [Increment(buf[off])]);
    }

    method MutByteSub() returns (o: Outcome)
      requires Valid()
      modifies buf
      ensures Attempted(old(Contents()), o) && Allowed(env, BYTESUB, old(Contents()), o)
    {
      hide Legal, Effect, Masked, Increment, Decrement;
      var off := RandBelow(len);
      o := Patched(ByteSub(off), off, [Decrement(buf[off])]);
    }

    method MutFlip8() returns (o: Outcome)
      requires Valid()
      modifies buf
      ensures Attempted(old(Contents()), o) && Allowed(env, FLIP8, old(Contents()), o)
    {
      hide Legal, Effect, Masked, Increment, Decrement;
      var off := RandBelow(len);
      o := Patched(Flip8(off), off, [Masked(buf[off], 0xff)]);
    }

    // ---------- Blocks ----------

    method MutCloneCopy() returns (o: Outcome)
      requires Valid()
      modifies this`len, buf, tmp
      ensures Attempted(old(Contents()), o) && Allowed(env, CLONE_COPY, old(Contents()), o)
    {
      hide Insert, Legal, Effect;
      SparedIs(env, Contents());
      if len + BLK_XL < env.maxLen {
        var n, _ := ChooseBlockLen(env, len);
        var from := RandBelow(len - n + 1);
        var to := RandBelow(len);
        CloneIs(env, Contents(), to, from, n);
        SliceOfPrefix(buf[..], len, from, from + n);
        InsertBytes(to, buf[from..from + n]);
        return Done(CloneCopy(to, from, n));
      } else if len < 8 {
        return Done(NoChange);
      }
      return Retry;
    }

    /** The byte of strategy 0 is the one before the position; strategy 1 draws it. */
    method FillByte(at: nat) returns (value: Byte, drawn: bool)
      requires Valid() && at < len
      ensures !drawn ==> value == buf[if at > 0 then at - 1 else 0]
    {
      var strat := RandBelow(2);
      drawn := strat != 0;
      var from := if at > 0 then at - 1 else 0;
      if strat != 0 {
        value := RandByte();
      } else {
        value := buf[from];
      }
    }

    method MutCloneFixed() returns (o: Outcome)
      requires Valid()
      modifies this`len, buf, tmp
      ensures Attempted(old(Contents()), o) && Allowed(env, CLONE_FIXED, old(Contents()), o)
    {
      hide Legal, Effect, Insert;
      SparedIs(env, Contents());
      if len + BLK_XL < env.maxLen {
        var n, _ := ChooseBlockLen(env, BLK_XL);
        var to := RandBelow(len);
        var value, _ := FillByte(to);
        FixedIs(env, Contents(), to, n, value);
        InsertBytes(to, Fill(value, n));
        return Done(CloneFixed(to, n, value));
      } else if len < 8 {
        return Done(NoChange);
      }
      return Retry;
    }

    method MutOverwriteCopy() returns (o: Outcome)
      requires Valid()
      modifies buf
      ensures Attempted(old(Contents()), o) && Allowed(env, OVERWRITE_COPY, old(Contents()), o)
    {
      if len < 2 { return Done(NoChange); }
      var n, _ := ChooseBlockLen(env, len - 1);
      var from := RandBelow(len - n + 1);
      var to := RandBelow(len - n + 1);
      hide Overwrite, Legal, Effect;
      CopyIs(env, Contents(), to, from, n);
      CopyBlock(to, from, n);
      o := Done(OverwriteCopy(to, from, n));
    }

    /** memmove inside the buffer, unless it would move the block onto itself. */
    method CopyBlock(to: nat, from: nat, n: nat)
      requires Valid() && from + n <= len && to + n <= len
      modifies buf
      ensures Valid() && Contents() == Overwrite(old(Contents()), to, old(Contents())[from..from + n])
    {
      hide Overwrite;
      SliceOfPrefix(buf[..], len, from, from + n);
      if from != to {
        Store(to, buf[from..from + n]);
      } else {
        SelfOverwrite(Contents(), to, n);
      }
    }

    lemma SelfOverwrite(s: seq<Byte>, at: nat, n: nat)
      requires at + n <= |s|
      ensures Overwrite(s, at, s[at..at + n]) == s
    {
    }

    method MutOverwriteFixed() returns (o: Outcome)
      requires Valid()
      modifies buf
      ensures Attempted(old(Contents()), o) && Allowed(env, OVERWRITE_FIXED, old(Contents()), o)
    {
      hide Legal, Effect;
      SparedIs(env, Contents());
      if len < 2 { return Done(NoChange); }
      var n, _ := ChooseBlockLen(env, len - 1);
      var to := RandBelow(len - n + 1);
      var value, _ := FillByte(to);
      o := Patched(OverwriteFixed(to, n, value), to, Fill(value, n));
    }

    /** Two different positions and a block length that keeps the blocks apart and inside. */
    method ChooseSwitch() returns (from: nat, to: nat, n: nat)
      requires Valid() && len >= 4
      ensures 1 <= n && from + n <= len && to + n <= len && (from + n <= to || to + n <= from)
    {
      from := RandBelow(len);
      to := RandOther(len, from);
      var dist := if from < to then to - from else from - to;
      var toEnd := if from < to then len - to else len - from;
      ghost var kind;
      n, kind := ChooseBlockLen(env, if dist < toEnd then dist else toEnd);
    }

    /** Backup, switch 1, switch 2. */
    method SwitchBlocks(from: nat, to: nat, n: nat)
      requires Valid() && from + n <= len && to + n <= len && (from + n <= to || to + n <= from)
      modifies buf, tmp
      ensures Valid()
      ensures Contents() == if from < to then ExchangeBlocks(old(Contents()), from, to, n)
                            else ExchangeBlocks(old(Contents()), to, from, n)
    {
      hide ExchangeBlocks, Overwrite;
      ghost var all := buf[..];
      Put(tmp, 0, buf[from..from + n]);
      SavedBlock(old(tmp[..]), tmp[..], all[from..from + n]);
      assert tmp[..n] == tmp[..][..n] == all[from..from + n];
      Put(buf, from, buf[to..to + n]);
      Put(buf, to, tmp[..n]);
      ghost var now := buf[..];
      SwitchedBlocks(all, now, len, from, to, n);
      assert now[..len] == buf[..len] && all[..len] == old(Contents());
    }

    lemma SavedBlock(before: seq<Byte>, after: seq<Byte>, block: seq<Byte>)
      requires |block| <= |before| && after == Overwrite(before, 0, block)
      ensures after[..|block|] == block
    {
    }

    method MutSwitch() returns (o: Outcome)
      requires Valid()
      modifies buf, tmp
      ensures Attempted(old(Contents()), o) && Allowed(env, SWITCH, old(Contents()), o)
    {
      hide ExchangeBlocks, Legal, Effect;
      SparedIs(env, Contents());
      if len < 4 { return Done(NoChange); }
      var from, to, n := ChooseSwitch();
      SwitchIs(env, Contents(), if from < to then from else to, if from < to then to else from, n);
      SwitchBlocks(from, to, n);
      o := Done(if from < to then Switch(from, to, n) else Switch(to, from, n));
    }

    lemma SwitchedBlocks(all: seq<Byte>, now: seq<Byte>, length: nat, from: nat, to: nat, n: nat)
      requires length <= |all| && from + n <= length && to + n <= length
      requires from + n <= to || to + n <= from
      requires now == Overwrite(Overwrite(all, from, all[to..to + n]), to, all[from..from + n])
      ensures now[..length]
           == if from < to then ExchangeBlocks(all[..length], from, to, n) else ExchangeBlocks(all[..length], to, from, n)
    {
      hide ExchangeBlocks, Overwrite;
      var a, b := if from < to then from else to, if from < to then to else from;
      var want := ExchangeBlocks(all[..length], a, b, n);
      var mid := Overwrite(all, from, all[to..to + n]);
      forall k | 0 <= k < length
        ensures now[k] == want[k]
      {
        OverwriteAt(all, from, all[to..to + n], k);
        OverwriteAt(mid, to, all[from..from + n], k);
        ExchangeAt(all[..length], a, b, n, k);
      }
      assert now[..length] == want;
    }

    method MutDel() returns (o: Outcome)
      requires Valid()
      modifies this`len, buf
      ensures Attempted(old(Contents()), o) && Allowed(env, DEL, old(Contents()), o)
    {
      hide Legal, Effect, Delete;
      SparedIs(env, Contents());
      if len < 2 { return Done(NoChange); }
      var n, _ := ChooseBlockLen(env, len - 1);
      var from := RandBelow(len - n + 1);
      DelIs(env, Contents(), from, n);
      DeleteBytes(from, n);
      o := Done(Del(from, n));
    }

    method MutDelOne() returns (o: Outcome)
      requires Valid()
      modifies this`len, buf
      ensures Attempted(old(Contents()), o) && Allowed(env, DELONE, old(Contents()), o)
    {
      hide Legal, Effect, Delete;
      SparedIs(env, Contents());
      if len < 2 { return Done(NoChange); }
      var from := RandBelow(len);
      DelOneIs(env, Contents(), from);
      DeleteBytes(from, 1);
      o := Done(DelOne(from));
    }

    method MutInsertOne() returns (o: Outcome)
      requires Valid()
      modifies this`len, buf, tmp
      ensures Attempted(old(Contents()), o) && Allowed(env, INSERTONE, old(Contents()), o)
    {
      hide Legal, Effect, Insert;
      SparedIs(env, Contents());
      if len < 2 { return Done(NoChange); }
      if len + 1 > env.maxLen { return Retry; }
      var to := RandBelow(len);
      var value, _ := FillByte(to);
      OneIs(env, Contents(), to, value);
      InsertBytes(to, [value]);
      o := Done(InsertOne(to, value));
    }

    /** The swap loop, from the last position of the block down to its second. */
    method MutShuffle() returns (o: Outcome)
      requires Valid()
      modifies buf
      ensures Attempted(old(Contents()), o) && Allowed(env, SHUFFLE, old(Contents()), o)
    {
      hide ShuffleEffect, Legal, Effect;
      SparedIs(env, Contents());
      if len < 4 { return Done(NoChange); }
      var n, _ := ChooseBlockLen(env, len - 1);
      var off := RandBelow(len - n + 1);
      ghost var before := Contents();
      var js := ShuffleBlock(off, n);
      ShuffleIs(env, before, off, js);
      o := Done(Shuffle(off, js));
    }

    method ShuffleBlock(off: nat, n: nat) returns (js: seq<nat>)
      requires Valid() && 1 <= n && off + n <= len
      modifies buf
      ensures Valid() && |js| == n && Draws(js, n)
      ensures Contents() == ShuffleEffect(old(Contents()), off, js)
    {
      hide Shuffled, Above, SwapAt;
      ghost var s := Contents();
      ghost var block := s[off..off + n];
      js := seq(n, _ => 0);
      var i := n - 1;
      NothingAbove(block, js);
      assert buf[off..off + n] == block;
      while i > 0
        invariant 0 <= i < n && DrawsAbove(js, n, i) && js[0] == 0
        invariant buf[..off] == s[..off] && buf[off + n..len] == s[off + n..]
        invariant buf[off..off + n] == Above(block, i, js)
      {
        var j := RandOther(i + 1, i);
        SwapBytes(off, n, i, j);
        AboveKept(block, i, i, js, j);
        js := js[i := j];
        AboveStep(block, i - 1, js);
        i := i - 1;
      }
      FinishFrom(block, 0, js);
      ShuffledZero(buf[off..off + n], js);
      assert Contents() == s[..off] + buf[off..off + n] + s[off + n..];
    }

    method SwapBytes(off: nat, n: nat, i: nat, j: nat)
      requires Valid() && off + n <= len && j < i < n
      modifies buf
      ensures buf[..off] == old(buf[..off]) && buf[off + n..len] == old(buf[off + n..len])
      ensures buf[off..off + n] == SwapAt(old(buf[off..off + n]), i, j)
    {
      buf[off + i], buf[off + j] := buf[off + j], buf[off + i];
    }

    lemma NothingAbove(block: seq<Byte>, js: seq<nat>)
      requires block != [] && |js| == |block|
      ensures Above(block, |block| - 1, js) == block
    {
    }

    lemma AboveStep(block: seq<Byte>, i: nat, js: seq<nat>)
      requires i + 1 < |block| && DrawsAbove(js, |block|, i)
      ensures Above(block, i, js) == SwapAt(Above(block, i + 1, js), i + 1, js[i + 1])
    {
    }

    lemma ShuffledZero(block: seq<Byte>, js: seq<nat>)
      requires block != [] && Draws(js, |block|)
      ensures Shuffled(block, 0, js) == block
    {
    }

    // ---------- Dictionary and splicing ----------

    method MutExtraOverwrite(auto: bool) returns (o: Outcome)
      requires Valid()
      modifies buf
      ensures Attempted(old(Contents()), o)
      ensures Allowed(env, if auto then AUTO_EXTRA_OVERWRITE else EXTRA_OVERWRITE, old(Contents()), o)
    {
      hide Legal, Effect;
      var dict := Dictionary(env, auto);
      if |dict| == 0 { return Retry; }
      var which := RandBelow(|dict|);
      if |dict[which]| > len { return Retry; }
      var at := RandBelow(len - |dict[which]| + 1);
      o := Patched(ExtraOverwrite(auto, which, at), at, dict[which]);
    }

    method MutExtraInsert(auto: bool) returns (o: Outcome)
      requires Valid()
      modifies this`len, buf
      ensures Attempted(old(Contents()), o)
      ensures Allowed(env, if auto then AUTO_EXTRA_INSERT else EXTRA_INSERT, old(Contents()), o)
    {
      hide Legal, Effect, Insert;
      var dict := Dictionary(env, auto);
      if |dict| == 0 { return Retry; }
      var which := RandBelow(|dict|);
      if len + |dict[which]| > env.maxLen { return Retry; }
      var at := RandBelow(len + 1);
      ExtraIs(env, Contents(), auto, which, at);
      InsertInPlace(at, dict[which]);
      o := Done(ExtraInsert(auto, which, at));
    }

    /** An empty splice buffer stands for the NULL pointer as well. */
    method MutSpliceOverwrite() returns (o: Outcome)
      requires Valid()
      modifies buf
      ensures Attempted(old(Contents()), o) && Allowed(env, SPLICE_OVERWRITE, old(Contents()), o)
    {
      hide Legal, Effect;
      if |env.splice| == 0 { return Retry; }
      var n, _ := ChooseBlockLen(env, |env.splice| - 1);
      if n > len { n := len; }
      var from := RandBelow(|env.splice| - n + 1);
      var to := RandBelow(len - n + 1);
      o := Patched(SpliceOverwrite(to, from, n), to, env.splice[from..from + n]);
    }

    method MutSpliceInsert() returns (o: Outcome)
      requires Valid()
      modifies this`len, buf, tmp
      ensures Attempted(old(Contents()), o) && Allowed(env, SPLICE_INSERT, old(Contents()), o)
    {
      hide Legal, Effect, Insert;
      if |env.splice| == 0 { return Retry; }
      if len + BLK_XL > env.maxLen { return Retry; }
      var n, _ := ChooseBlockLen(env, |env.splice|);
      var from := RandBelow(|env.splice| - n + 1);
      var to := RandBelow(len + 1);
      SpliceIs(env, Contents(), to, from, n);
      InsertBytes(to, env.splice[from..from + n]);
      o := Done(SpliceInsert(to, from, n));
    }

    // ---------- Numbers ----------

    method MutInsertAsciiNum(val: nat) returns (o: Outcome)
      requires Valid() && val < TWO64
      modifies buf
      ensures Attempted(old(Contents()), o) && Allowed(env, INSERTASCIINUM, old(Contents()), o)
    {
      hide LastDigits, Legal, Effect, Patch;
      SparedIs(env, Contents());
      var r := RandBelow(8);
      var n := 1 + r;
      var at := RandBelow(len);
      if len < at + n {
        if len < 8 { return Done(NoChange); }
        return Retry;
      }
      DigitsPatch(env, Contents(), at, n, val);
      o := Patched(InsertAsciiNum(at, n, val), at, LastDigits(val, n));
    }

    /** The search from `off` to the end, then from the start to `off`; `len` when there is no digit. */
    method FindDigit(off: nat) returns (at: nat)
      requires Valid() && off < len
      ensures at <= len && (at < len ==> IsDigit(buf[at]))
      ensures at == len ==> forall k | 0 <= k < len :: !IsDigit(buf[k])
    {
      at := off;
      while at < len && !IsDigit(buf[at])
        invariant off <= at <= len && forall k | off <= k < at :: !IsDigit(buf[k])
      {
        at := at + 1;
      }
      if at == len {
        at := 0;
        while at < off && !IsDigit(buf[at])
          invariant 0 <= at <= off && forall k | 0 <= k < at :: !IsDigit(buf[k])
        {
          at := at + 1;
        }
        if at == off { at := len; }
      }
    }

    /** The digits from `off` on. */
    method DigitsFrom(off: nat) returns (end: nat)
      requires Valid() && off < len && IsDigit(buf[off])
      ensures off < end <= len && forall k | off <= k < end :: IsDigit(buf[k])
      ensures end < len ==> !IsDigit(buf[end])
    {
      end := off + 1;
      while end < len && IsDigit(buf[end])
        invariant off < end <= len && forall k | off <= k < end :: IsDigit(buf[k])
      {
        end := end + 1;
      }
    }

    /** The run of digits that is parsed: cut where the value would leave 64 bits. */
    method ParseRun(off: nat) returns (used: nat, val: int)
      requires Valid() && off < len && IsDigit(buf[off])
      ensures DigitRun(Contents(), off, used) && val == NumberAt(Contents(), off, used)
    {
      hide Decimal, IsDigit, Minus;
      var end := DigitsFrom(off);
      var run := buf[off..end];
      val, used := Parse(run);
      if off > 0 && buf[off - 1] == Minus() { val := -val; }
      ghost var s := Contents();
      assert s[off..end] == run by { SliceOfPrefix(buf[..], len, off, end); }
      RunIs(s, off, end, used, run);
    }

    /** The parsed part of a maximal run of digits. */
    lemma RunIs(s: seq<Byte>, off: nat, end: nat, used: nat, run: seq<Byte>)
      requires off < end <= |s| && run == s[off..end] && (end < |s| ==> !IsDigit(s[end]))
      requires (forall k | off <= k < end :: IsDigit(s[k])) && 1 <= used <= |run|
      requires (forall k | 0 <= k < |run| :: IsDigit(run[k])) && Decimal(run[..used]) <= INT64_MAX
      requires used < |run| ==> Decimal(run[..used + 1]) > INT64_MAX
      ensures DigitRun(s, off, used) && s[off..off + used] == run[..used]
    {
      hide Decimal, IsDigit;
      assert run[..used] == s[off..off + used];
      if used < |run| {
        assert run[..used + 1] == s[off..off + used + 1];
      }
    }

    /** Strategy 4 draws below ten times the value when that is small, the others below 256. */
    method DrawFor(strat: nat, val: int, random: nat) returns (r: nat)
      requires random < TWO64
      ensures Drawn(strat, val, r)
    {
      if strat == 4 && 0 < val < 0x19999999 {
        r := random % (val * 10);
      } else {
        r := RandBelow(256);
      }
    }

    method MutAsciiNum(random: nat) returns (o: Outcome)
      requires Valid() && random < TWO64
      modifies this`len, buf, tmp
      ensures Attempted(old(Contents()), o) && Allowed(env, ASCIINUM, old(Contents()), o)
    {
      hide DigitRun, NumberAt, IsDigit, Drawn, Legal, Effect;
      SparedIs(env, Contents());
      if len < 4 { return Done(NoChange); }
      var start := RandBelow(len);
      var off := FindDigit(start);
      assert off == len ==> NoDigits(Contents());
      if off == len {
        if len < 8 { return Done(NoChange); }
        return Retry;
      }
      var used, val := ParseRun(off);
      var strat := RandBelow(8);
      var r := DrawFor(strat, val, random);
      o := ReplaceNumber(off, used, val, strat, r);
    }

    /** Print the changed number over the run. */
    method ReplaceNumber(off: nat, used: nat, val: int, strat: nat, r: nat) returns (o: Outcome)
      requires Valid() && DigitRun(Contents(), off, used) && val == NumberAt(Contents(), off, used)
      requires strat < 8 && Drawn(strat, val, r)
      modifies this`len, buf, tmp
      ensures Attempted(old(Contents()), o)
      ensures match o case Retry => old(len) + 6 > env.maxLen case Done(c) => c.AsciiNum?
    {
      hide Decimal, Digits, Strategy, IsDigit, EnvOk, NumberAt;
      ghost var s := Contents();
      var c := AsciiNum(off, used, strat, r);
      NumberEnd(s, off, used, strat, r);
      var (v, cut) := Strategy(strat, val, r);
      var text := PointerSized(Text(v));
      var end := if cut then off + used - 1 else off + used;
      assert NumberText(s, c) == (text, end);
      if end - off == |text| {
        Store(off, text);
        assert Overwrite(s, off, text) == Replace(s, off, end, text);
      } else {
        if off + |text| + len - end > env.maxLen { return Retry; }
        Splice(off, end, text);
      }
      o := Done(c);
    }

    /** The replaced range keeps at least one digit. */
    lemma NumberEnd(s: seq<Byte>, off: nat, used: nat, strat: nat, r: nat)
      requires DigitRun(s, off, used) && strat < 8 && Drawn(strat, NumberAt(s, off, used), r)
      ensures Strategy(strat, NumberAt(s, off, used), r).1 ==> used >= 2
      ensures INT64_MIN <= Strategy(strat, NumberAt(s, off, used), r).0 <= INT64_MAX
    {
      hide Decimal, Strategy, IsDigit;
      var run := s[off..off + used];
      StrategyInRange(run, NumberAt(s, off, used), strat, r);
    }

    // ---------- The step loop ----------

    /** One pass through the switch; `random` is the value of rand_next for the kinds that call it. */
    method Attempt(kind: Kind, random: nat) returns (o: Outcome)
      requires Valid() && random < TWO64
      modifies this`len, buf, tmp
      ensures Attempted(old(Contents()), o) && Allowed(env, kind, old(Contents()), o)
    {
      hide Legal, Effect;
      match kind {
        case FLIPBIT => o := MutFlipBit();
        case INTERESTING8 => o := MutInteresting8();
        case INTERESTING16 => o := MutInteresting16(false);
        case INTERESTING16BE => o := MutInteresting16(true);
        case INTERESTING32 => o := MutInteresting32(false);
        case INTERESTING32BE => o := MutInteresting32(true);
        case ARITH8_ => o := MutArith8(true);
        case ARITH8 => o := MutArith8(false);
        case ARITH16_ => o := MutArith16(false, true);
        case ARITH16BE_ => o := MutArith16(true, true);
        case ARITH16 => o := MutArith16(false, false);
        case ARITH16BE => o := MutArith16(true, false);
        case ARITH32_ => o := MutArith32(false, true);
        case ARITH32BE_ => o := MutArith32(true, true);
        case ARITH32 => o := MutArith32(false, false);
        case ARITH32BE => o := MutArith32(true, false);
        case RAND8 => o := MutRand8();
        case CLONE_COPY => o := MutCloneCopy();
        case CLONE_FIXED => o := MutCloneFixed();
        case OVERWRITE_COPY => o := MutOverwriteCopy();
        case OVERWRITE_FIXED => o := MutOverwriteFixed();
        case BYTEADD => o := MutByteAdd();
        case BYTESUB => o := MutByteSub();
        case FLIP8 => o := MutFlip8();
        case SWITCH => o := MutSwitch();
        case DEL => o := MutDel();
        case SHUFFLE => o := MutShuffle();
        case DELONE => o := MutDelOne();
        case INSERTONE => o := MutInsertOne();
        case ASCIINUM => o := MutAsciiNum(random);
        case INSERTASCIINUM => o := MutInsertAsciiNum(random);
        case EXTRA_OVERWRITE => o := MutExtraOverwrite(false);
        case EXTRA_INSERT => o := MutExtraInsert(false);
        case AUTO_EXTRA_OVERWRITE => o := MutExtraOverwrite(true);
        case AUTO_EXTRA_INSERT => o := MutExtraInsert(true);
        case SPLICE_OVERWRITE => o := MutSpliceOverwrite();
        case SPLICE_INSERT => o := MutSpliceInsert();
      }
    }

    /**
     afl_mutate: `steps` mutations, with any number of retries. `draws` are the kinds picked from the
     strategy array in order; the run stops early only when they are used up. `os` is what each
     attempt ended with.
     */
    method Mutate(steps: nat, draws: seq<(Kind, nat)>) returns (os: seq<Outcome>)
      requires Valid() && forall k | 0 <= k < |draws| :: draws[k].1 < TWO64
      modifies this`len, buf, tmp
      ensures Valid() && |os| <= |draws|
      ensures Followed(env, old(Contents()), draws[..|os|], os, Contents())
      ensures |Mutations(os)| <= steps && (|Mutations(os)| < steps ==> |os| == |draws|)
      ensures Mutated(env, old(Contents()), Mutations(os), Contents())
    {
      hide Legal, Effect, Allowed;
      ghost var start := Contents();
      os := [];
      var done := 0;
      while done < steps && |os| < |draws|
        invariant |os| <= |draws| && done <= steps && Valid() && done == |Mutations(os)|
        invariant Followed(env, start, draws[..|os|], os, Contents())
        decreases |draws| - |os|
      {
        ghost var before := Contents();
        var k := |os|;
        var o := Attempt(draws[k].0, draws[k].1);
        FollowedSnoc(env, start, draws[..k], os, before, draws[k], o, Contents());
        assert draws[..k + 1] == draws[..k] + [draws[k]];
        os := os + [o];
        if o.Done? {
          done := done + 1;
        }
      }
      FollowedMutates(env, start, draws[..|os|], os, Contents());
    }
  }

  // ---------- The entry ----------

  /** The four arrays of 256 kinds from which a step draws. */
  datatype Strategies = Strategies(
    explorationText: seq<Kind>, exploitationText: seq<Kind>,
    explorationBinary: seq<Kind>, exploitationBinary: seq<Kind>)

  ghost predicate StrategiesOk(st: Strategies) {
    |st.explorationText| == |st.exploitationText| == |st.explorationBinary| == |st.exploitationBinary| == 256
  }

  function MutationArray(st: Strategies, isText: bool, isExploration: bool): (a: seq<Kind>)
    requires StrategiesOk(st)
    ensures |a| == 256
  {
    if isText then (if isExploration then st.explorationText else st.exploitationText)
    else if isExploration then st.explorationBinary else st.exploitationBinary
  }

  /** The kinds behind the drawn positions. */
  function Picked(a: seq<Kind>, draws: seq<(nat, nat)>): (ks: seq<(Kind, nat)>)
    requires |a| == 256 && forall k | 0 <= k < |draws| :: draws[k].0 < 256 && draws[k].1 < TWO64
    ensures |ks| == |draws| && forall k | 0 <= k < |ks| :: ks[k] == (a[draws[k].0], draws[k].1)
  {
    seq(|draws|, k requires 0 <= k < |draws| => (a[draws[k].0], draws[k].1))
  }

  /** The attempts were made on the kinds that the draws find in the array. */
  ghost predicate DrawnFrom(env: Env, a: seq<Kind>, draws: seq<(nat, nat)>, before: seq<Byte>, os: seq<Outcome>,
                            after: seq<Byte>)
    requires |a| == 256 && forall k | 0 <= k < |draws| :: draws[k].0 < 256 && draws[k].1 < TWO64
  {
    |os| <= |draws| && Followed(env, before, Picked(a, draws)[..|os|], os, after)
  }

  /**
   afl_mutate from its first line: nothing happens and 0 is returned for a NULL or empty buffer and
   when the temporary buffer cannot be had; otherwise the new length of the mutated test case.
   */
  method AflMutate(env: Env, buf: array?<Byte>, n: nat, steps: nat, isText: bool, isExploration: bool,
                   st: Strategies, granted: bool, draws: seq<(nat, nat)>)
    returns (len: nat, os: seq<Outcome>)
    requires EnvOk(env) && StrategiesOk(st) && (buf != null ==> n <= env.maxLen <= buf.Length)
    requires forall k | 0 <= k < |draws| :: draws[k].0 < 256 && draws[k].1 < TWO64
    modifies buf
    ensures len == 0 <==> buf == null || n == 0 || !granted
    ensures len == 0 ==> os == [] && (buf != null ==> buf[..] == old(buf[..]))
    ensures len > 0 ==>
      && len <= env.maxLen && |os| <= |draws|
      && (isText && isExploration ==> DrawnFrom(env, st.explorationText, draws, old(buf[..n]), os, buf[..len]))
      && (isText && !isExploration ==> DrawnFrom(env, st.exploitationText, draws, old(buf[..n]), os, buf[..len]))
      && (!isText && isExploration ==> DrawnFrom(env, st.explorationBinary, draws, old(buf[..n]), os, buf[..len]))
      && (!isText && !isExploration ==> DrawnFrom(env, st.exploitationBinary, draws, old(buf[..n]), os, buf[..len]))
      && Mutated(env, old(buf[..n]), Mutations(os), buf[..len])
      && |Mutations(os)| <= steps && (|Mutations(os)| < steps ==> |os| == |draws|)
  {
    if buf == null || n == 0 { return 0, []; }
    if !granted { return 0, []; }
    var h := new Havoc(env, buf, n);
    hide Followed, Mutated;
    os := h.Mutate(steps, Picked(MutationArray(st, isText, isExploration), draws));
    len := h.len;
  }
}
