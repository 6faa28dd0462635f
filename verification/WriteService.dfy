/** `OZWriteServiceHandler`: keys made from a counter, under a mutex, with recovery of the counter at start-up. */
module WriteService {
  import opened Bytes
  import opened Records
  import opened OzWrite
  import opened OzMerge

  // ----- numbers and keys

  /** `snprintf(_key, 16, "%ld", id)` */
  function KeyText(id: nat): Bytes {
    var d := Decimal(id);
    if |d| < 16 then d else d[..15]
  }

  /** Narrowing of a `long` to `int`. */
  function ToInt(x: int): (r: int)
    ensures -0x8000_0000 <= r < 0x8000_0000
    ensures -0x8000_0000 <= x < 0x8000_0000 ==> r == x
  {
    var m := x % 0x1_0000_0000;
    if m < 0x8000_0000 then m else m - 0x1_0000_0000
  }

  /** `atoi`: `strtol`, which saturates, narrowed to `int`. */
  function Atoi(s: Bytes): (r: int)
    ensures r < TWO31
  {
    var negative := s != [] && s[0] == 45;
    var d := if s != [] && (s[0] == 45 || s[0] == 43) then s[1..] else s;
    var n := Span(Digit, d);
    assert forall i :: 0 <= i < n ==> InClass(Digit, d[i]) && IsDigit(d[i]);
    var v := DigitsValue(d[..n]);
    var magnitude: int := if v < TWO63 then v else if negative then TWO63 else TWO63 - 1;
    ToInt(if negative then -magnitude else magnitude)
  }

  /** `atoi` of a printed number is the number, narrowed to `int`. */
  lemma AtoiDecimal(n: nat)
    requires n < TWO63
    ensures Atoi(Decimal(n)) == ToInt(n) && (n < TWO31 ==> Atoi(Decimal(n)) == n)
  {
    var d := Decimal(n);
    assert IsDigit(d[0]);
    assert forall i :: 0 <= i < |d| ==> InClass(Digit, d[i]);
    SpanOf(Digit, d, []);
    assert d + [] == d && d[..|d|] == d;
    DecimalRoundTrip(n);
  }

  /** The key buffer holds the number whole if and only if it has at most 15 digits. */
  lemma KeyTextWhole(id: nat)
    ensures KeyText(id) == Decimal(id) <==> id < 1_000_000_000_000_000
  {
    PowerOfKey();
    hide Decimal, Pow10;
    DecimalLength(id, 15);
  }

  lemma PowerOfKey()
    ensures Pow10(15) == 1_000_000_000_000_000
  {
    assert Pow10(8) == 100_000_000;
    assert Pow10(12) == 10_000 * Pow10(8) && Pow10(15) == 1_000 * Pow10(12);
  }

  /** Every key the service can make is a valid key, below the sentinel and free of 0xFF. */
  lemma ServiceKeysAreServable(id: nat)
    ensures ValidKey(KeyText(id)) && StrCmp(KeyText(id), SENTINEL) < 0 && 255 !in KeyText(id)
  {
    var d := Decimal(id);
    forall i | 0 <= i < |d|
      ensures !IsSpace(d[i]) && d[i] != 0 && d[i] < 126 && d[i] != 255
    {
      assert IsDigit(d[i]);
    }
  }

  // ----- getmax

  /** The `%s` items of a key file read without skipping the end of the last line. */
  function KeysRead(text: Bytes): seq<Bytes>
    decreases |text|
  {
    match ScanOpen(text)
    case Eof => []
    case Short(key, rest) => [key] + KeysRead(rest)
    case Full(r, rest) => [r.key] + KeysRead(rest)
  }

  function Keys(rs: seq<Record>): seq<Bytes> {
    if rs == [] then [] else [rs[0].key] + Keys(rs[1..])
  }

  lemma {:induction false} KeysAt(rs: seq<Record>, i: nat)
    requires i < |rs|
    ensures |Keys(rs)| == |rs| && Keys(rs)[i] == rs[i].key
  {
    if |rs| > 1 { KeysAt(rs[1..], if i > 0 then i - 1 else 0); }
  }

  lemma {:induction false} KeysReadText(ws: Bytes, rs: seq<Record>)
    requires AllValid(rs) && forall i :: 0 <= i < |ws| ==> IsSpace(ws[i])
    ensures KeysRead(ws + Text(rs)) == Keys(rs)
    decreases |rs|
  {
    ScanSpaced(ws, rs);
    hide ScanOpen;
    if rs != [] {
      KeysReadText([NL], rs[1..]);
    }
  }

  /** The greatest `atoi` of the keys, at least 0. */
  function MaxId(keys: seq<Bytes>): (m: nat)
    ensures m < TWO31
    ensures forall i :: 0 <= i < |keys| ==> Atoi(keys[i]) <= m
  {
    if keys == [] then 0
    else
      var last := keys[|keys| - 1];
      var m := MaxId(keys[..|keys| - 1]);
      assert forall i :: 0 <= i < |keys| - 1 ==> keys[..|keys| - 1][i] == keys[i];
      if Atoi(last) > m then Atoi(last) else m
  }

  /** The maximum is 0 or the `atoi` of a key. */
  lemma {:induction false} MaxIdAttained(keys: seq<Bytes>)
    ensures MaxId(keys) == 0 || exists i :: 0 <= i < |keys| && Atoi(keys[i]) == MaxId(keys)
  {
    hide Atoi;
    if keys != [] {
      var init, last := keys[..|keys| - 1], keys[|keys| - 1];
      MaxIdAttained(init);
      if MaxId(keys) != 0 && Atoi(last) <= MaxId(init) {
        var i :| 0 <= i < |init| && Atoi(init[i]) == MaxId(init);
        assert Atoi(keys[i]) == MaxId(keys);
      }
    }
  }

  /** The counter that `getmax` recovers. */
  function Recovered(text: Bytes): nat {
    MaxId(KeysRead(text)) + 1
  }

  /** The counter of a file that the service has written: one above its greatest id, and 1 if it has none. */
  lemma RecoveredIs(rs: seq<Record>, ids: seq<nat>)
    requires AllValid(rs) && |ids| == |rs|
    requires forall i :: 0 <= i < |rs| ==> ids[i] < 2147483648 && rs[i].key == Decimal(ids[i])
    ensures rs == [] ==> Recovered(Text(rs)) == 1
    ensures rs != [] ==> exists i :: 0 <= i < |rs| && Recovered(Text(rs)) == ids[i] + 1
    ensures forall i :: 0 <= i < |rs| ==> ids[i] < Recovered(Text(rs))
  {
    hide KeysRead, Text, Atoi, Decimal, AllValid, Keys;
    KeysReadText([], rs);
    EmptyConcat(Text(rs));
    var keys := Keys(rs);
    KeysLength(rs);
    forall i | 0 <= i < |rs|
      ensures keys[i] == rs[i].key && Atoi(keys[i]) == ids[i]
    {
      KeysAt(rs, i);
      AtoiDecimal(ids[i]);
    }
    MaxIdAttained(keys);
    if rs != [] && MaxId(keys) == 0 {
      assert Atoi(keys[0]) <= MaxId(keys);
    }
  }

  lemma KeysLength(rs: seq<Record>)
    ensures |Keys(rs)| == |rs|
  {
  }

  lemma AtoiNoNumber(s: Bytes)
    requires s == [] || (!IsDigit(s[0]) && s[0] != 45 && s[0] != 43)
    ensures Atoi(s) == 0
  {
  }

  lemma AtoiSigned(sign: byte, n: nat)
    requires sign == 43 || sign == 45
    ensures Atoi([sign] + Decimal(n))
         == var m: int := if n < TWO63 then n else if sign == 45 then TWO63 else TWO63 - 1;
            ToInt(if sign == 45 then -m else m)
  {
    hide ToInt, Decimal;
    var d := Decimal(n);
    assert ([sign] + d)[1..] == d;
    assert forall i :: 0 <= i < |d| ==> InClass(Digit, d[i]);
    SpanOf(Digit, d, []);
    assert d + [] == d && d[..|d|] == d;
    DecimalRoundTrip(n);
  }

  /** A sign, and text that is no number. */
  lemma AtoiOthers(n: int, s: Bytes)
    requires 0 <= n <= 2147483648 && (s == [] || (!IsDigit(s[0]) && s[0] != 45 && s[0] != 43))
    ensures Atoi([45] + Decimal(n)) == -n && Atoi(s) == 0
    ensures n < 2147483648 ==> Atoi([43] + Decimal(n)) == n
  {
    hide Atoi, Decimal;
    AtoiSigned(45, n);
    AtoiSigned(43, n);
    AtoiNoNumber(s);
  }

  // ----- the handler, as one thread runs it under the lock

  /** One value to put, with what the system does to it. */
  datatype Item = Item(value: Bytes, io: Io)

  /** The loop of `puts`; `put` is the case of one item. */
  function RunJob(s: Store, id: nat, job: seq<Item>): (Store, nat)
    decreases |job|
  {
    if job == [] then (s, id)
    else RunJob(AfterPut(s, KeyText(id), job[0].value, job[0].io).1, id + 1, job[1..])
  }

  /** The puts that a job makes: one for each value, under the ids from `id` on. */
  function CallsOf(id: nat, job: seq<Item>): (r: seq<PutCall>)
    ensures |r| == |job|
    ensures forall i :: 0 <= i < |job| ==> r[i] == PutCall(KeyText(id + i), job[i].value, job[i].io)
  {
    seq(|job|, i requires 0 <= i < |job| => PutCall(KeyText(id + i), job[i].value, job[i].io))
  }

  /** A job is a run of puts under consecutive ids, each used once whatever becomes of the put. */
  lemma {:induction false} JobIsRun(s: Store, id: nat, job: seq<Item>)
    ensures RunJob(s, id, job) == (Run(s, CallsOf(id, job)), id + |job|)
    decreases |job|
  {
    hide AfterPut, KeyText;
    if job != [] {
      JobIsRun(AfterPut(s, KeyText(id), job[0].value, job[0].io).1, id + 1, job[1..]);
      assert CallsOf(id, job)[1..] == CallsOf(id + 1, job[1..]);
    }
  }

  /** The text for each return code of `ozwrite_put`: 4 is reported as 5, and 0 not at all. */
  function Reason(ret: int): string {
    match ret
    case 0 => ""
    case 1 => "invalid handle"
    case 2 => "write key error"
    case 3 => "write value error"
    case 4 => "value length can't be zero"
    case 5 => "value length can't be zero"
    case 6 => "key length can't be zero"
    case _ => "unknown error"
  }

  class OZWriteServiceHandler {
    const ow: OZWrite
    var id: nat
    var key: Bytes

    constructor (ow: OZWrite)
      ensures this.ow == ow && id == Recovered(ow.keyFile)
    {
      this.ow := ow;
      key := [];
      new;
      GetMax(ow.keyFile);
    }

    method GetMax(text: Bytes)
      modifies this`id
      ensures id == Recovered(text)
    {
      hide ScanOpen, Atoi;
      id := 0;
      var rest := text;
      ghost var read: seq<Bytes> := [];
      while true
        invariant id == MaxId(read) && KeysRead(text) == read + KeysRead(rest)
        decreases |rest|
      {
        var sid;
        match ScanOpen(rest) {
          case Eof =>
            break;
          case Short(k, next) =>
            sid, rest := k, next;
          case Full(r, next) =>
            sid, rest := r.key, next;
        }
        ConcatAssociative(read, [sid], KeysRead(rest));
        assert (read + [sid])[..|read|] == read;
        read := read + [sid];
        if Atoi(sid) > id {
          id := Atoi(sid);
        }
      }
      assert read + [] == read;
      id := id + 1;
    }

    /** `put`: a failure is thrown after the lock is released; failure 4 is reported with the text of 5. */
    method Put(value: Bytes, io: Io) returns (why: string)
      modifies this`id, this`key, ow
      ensures (ow.Files(), id) == RunJob(old(ow.Files()), old(id), [Item(value, io)])
      ensures key == KeyText(old(id)) && id == old(id) + 1
      ensures why == Reason(AfterPut(old(ow.Files()), KeyText(old(id)), value, io).0)
      ensures value == [] ==> why == "value length can't be zero"
      ensures 0 < |value| < 4294967296 && io == FtelloFails ==> why == "value length can't be zero"
      ensures 0 < |value| < 4294967296 && io == ShortWrite(0) ==> why == "write value error"
      ensures 0 < |value| < 4294967296 && io == KeyWriteFails ==> why == "write key error"
      ensures 0 < |value| < 4294967296 && io == Fine ==> why == ""
      ensures why == "" <==> Succeeds(PutCall(KeyText(old(id)), value, io))
    {
      key := KeyText(id);
      id := id + 1;
      var ret := ow.Put(key, value, io);
      match ret
      case 0 => why := "";
      case 1 => why := "invalid handle";
      case 2 => why := "write key error";
      case 3 => why := "write value error";
      case 4 => why := "value length can't be zero";
      case 5 => why := "value length can't be zero";
      case 6 => why := "key length can't be zero";
      case _ => why := "unknown error";
    }

    /** `puts`: every value gets a key, results are ignored. */
    method Puts(job: seq<Item>)
      modifies this`id, this`key, ow
      ensures (ow.Files(), id) == RunJob(old(ow.Files()), old(id), job)
      ensures ow.Files() == Run(old(ow.Files()), CallsOf(old(id), job)) && id == old(id) + |job|
    {
      hide AfterPut, Run, CallsOf;
      JobIsRun(ow.Files(), id, job);
      for i := 0 to |job|
        invariant RunJob(ow.Files(), id, job[i..]) == RunJob(old(ow.Files()), old(id), job)
      {
        assert job[i..][1..] == job[i + 1..];
        key := KeyText(id);
        id := id + 1;
        var _ := ow.Put(key, job[i].value, job[i].io);
      }
    }
  }
}
