/** The bitcoind JSON-RPC client: txid byte order, and correlation of batch
    replies by id (services/pool-verifier/src/bitcoind_rpc.rs). */
module BitcoindRpc {
  import opened Base

  type Byte = b: int | 0 <= b < 256

  type Bytes32 = s: seq<Byte> | |s| == 32 witness seq(32, _ => 0)

  // A transaction id in INTERNAL byte order, the order the shield works in.
  datatype Txid = Txid(bytes: Bytes32)

  datatype RpcError = RpcError(text: string)

  // ---- Base16, section 8 of RFC 4648 ----

  function HexDigit(n: nat): char
    requires n < 16
  {
    if n < 10 then ('0' as int + n) as char else ('a' as int + n - 10) as char
  }

  function DigitValue(c: char): Option<nat>
  {
    if '0' <= c <= '9' then Some(c as int - '0' as int)
    else if 'a' <= c <= 'f' then Some(c as int - 'a' as int + 10)
    else if 'A' <= c <= 'F' then Some(c as int - 'A' as int + 10)
    else None
  }

  predicate IsHexDigit(c: char) { DigitValue(c).Some? }

  function LowerDigit(c: char): char
  {
    if 'A' <= c <= 'F' then (c as int - 'A' as int + 'a' as int) as char else c
  }

  function HexEncode(bytes: seq<Byte>): string
  {
    if bytes == [] then ""
    else [HexDigit(bytes[0] / 16), HexDigit(bytes[0] % 16)] + HexEncode(bytes[1..])
  }

  function HexDecode(s: string): Option<seq<Byte>>
  {
    if s == "" then Some([])
    else if |s| == 1 then None
    else
      match (DigitValue(s[0]), DigitValue(s[1]), HexDecode(s[2..]))
      case (Some(hi), Some(lo), Some(rest)) =>
        DigitRange(s[0]);
        DigitRange(s[1]);
        Some([(hi * 16 + lo) as Byte] + rest)
      case _ => None
  }

  lemma DigitRange(c: char)
    ensures DigitValue(c).Some? ==> DigitValue(c).value < 16 && HexDigit(DigitValue(c).value) == LowerDigit(c)
  {
    if 'A' <= c <= 'F' {
      assert LowerDigit(c) as int == c as int - 'A' as int + 'a' as int;
    }
  }

  lemma HexDigitValue(n: nat)
    requires n < 16
    ensures DigitValue(HexDigit(n)) == Some(n)
  {
  }

  lemma {:induction false} DecodeEncode(bytes: seq<Byte>)
    ensures |HexEncode(bytes)| == 2 * |bytes|
    ensures HexDecode(HexEncode(bytes)) == Some(bytes)
  {
    if bytes != [] {
      DecodeEncode(bytes[1..]);
      var text := HexEncode(bytes);
      assert text[2..] == HexEncode(bytes[1..]);
      HexDigitValue(bytes[0] / 16);
      HexDigitValue(bytes[0] % 16);
      assert [bytes[0]] + bytes[1..] == bytes;
    }
  }

  ghost predicate AllHex(s: string) { forall i :: 0 <= i < |s| ==> IsHexDigit(s[i]) }

  function Lower(s: string): string
  {
    if s == "" then "" else [LowerDigit(s[0])] + Lower(s[1..])
  }

  // Decoding accepts exactly the even-length texts of hex digits, of either case.
  lemma {:induction false} DecodeAccepts(s: string)
    ensures HexDecode(s).Some? <==> |s| % 2 == 0 && AllHex(s)
    ensures HexDecode(s).Some? ==> 2 * |HexDecode(s).value| == |s|
  {
    if |s| >= 2 {
      var rest := s[2..];
      DecodeAccepts(rest);
      assert forall i :: 2 <= i < |s| ==> s[i] == rest[i - 2];
      assert AllHex(s) <==> IsHexDigit(s[0]) && IsHexDigit(s[1]) && AllHex(rest);
    }
  }

  // Re-encoding what was decoded gives the text back in lower case.
  lemma {:induction false} EncodeDecode(s: string)
    requires HexDecode(s).Some?
    ensures HexEncode(HexDecode(s).value) == Lower(s)
  {
    if s != "" {
      var rest := s[2..];
      EncodeDecode(rest);
      DigitRange(s[0]);
      DigitRange(s[1]);
      var hi, lo := DigitValue(s[0]).value, DigitValue(s[1]).value;
      var v := HexDecode(s).value;
      assert v[0] == hi * 16 + lo && v[1..] == HexDecode(rest).value;
      assert v[0] / 16 == hi && v[0] % 16 == lo;
      assert s[1..][1..] == rest;
      assert Lower(s) == [LowerDigit(s[0])] + ([LowerDigit(s[1])] + Lower(rest));
    }
  }

  // ---- Byte order ----

  function Reversed(s: Bytes32): Bytes32
  {
    seq(32, i requires 0 <= i < 32 => s[31 - i])
  }

  // Bitcoin Core speaks display order: the byte-reversed hex.
  function Display(t: Txid): string { HexEncode(Reversed(t.bytes)) }

  function ParseTxidHex(text: string): Result<Bytes32, RpcError>
  {
    if |text| != 64 then Err(RpcError(text))
    else
      match HexDecode(text)
      case Some(bytes) => if |bytes| == 32 then Ok(bytes) else Err(RpcError(text))
      case None => Err(RpcError(text))
  }

  // The txid a display-order text names, if it names one.
  function Named(text: string): Option<Txid>
  {
    match ParseTxidHex(text)
    case Ok(bytes) => Some(Txid(Reversed(bytes)))
    case Err(_) => None
  }

  lemma DisplayNames(t: Txid)
    ensures |Display(t)| == 64
    ensures Named(Display(t)) == Some(t)
  {
    DecodeEncode(Reversed(t.bytes));
    assert Reversed(Reversed(t.bytes)) == t.bytes;
  }

  // ---- What a display text spells ----

  const LOWER_DIGITS := "0123456789abcdef"
  const UPPER_DIGITS := "0123456789ABCDEF"

  // Digit pair i of the text is byte 31 - i of the txid: display order is
  // the reverse of the internal one.
  predicate SpellsByte(text: string, t: Txid, i: nat)
    requires |text| == 64 && i < 32
  {
    var hi, lo := t.bytes[31 - i] / 16, t.bytes[31 - i] % 16;
    && (text[2 * i] == LOWER_DIGITS[hi] || text[2 * i] == UPPER_DIGITS[hi])
    && (text[2 * i + 1] == LOWER_DIGITS[lo] || text[2 * i + 1] == UPPER_DIGITS[lo])
  }

  ghost predicate Spells(text: string, t: Txid)
  {
    |text| == 64 && forall i :: 0 <= i < 32 ==> SpellsByte(text, t, i)
  }

  lemma DigitIs(c: char, v: nat)
    requires v < 16
    ensures HexDigit(v) == LOWER_DIGITS[v]
    ensures DigitValue(c) == Some(v) <==> c == LOWER_DIGITS[v] || c == UPPER_DIGITS[v]
  {
    if v < 10 {
      assert LOWER_DIGITS[v] as int == '0' as int + v && UPPER_DIGITS[v] as int == '0' as int + v;
    } else {
      assert LOWER_DIGITS[v] as int == 'a' as int + v - 10 && UPPER_DIGITS[v] as int == 'A' as int + v - 10;
    }
  }

  lemma {:induction false} EncodeAt(bytes: seq<Byte>, i: nat)
    requires i < |bytes|
    ensures |HexEncode(bytes)| == 2 * |bytes|
    ensures HexEncode(bytes)[2 * i] == LOWER_DIGITS[bytes[i] / 16]
    ensures HexEncode(bytes)[2 * i + 1] == LOWER_DIGITS[bytes[i] % 16]
  {
    DecodeEncode(bytes);
    DigitIs('0', bytes[0] / 16);
    DigitIs('0', bytes[0] % 16);
    if i > 0 {
      EncodeAt(bytes[1..], i - 1);
      assert HexEncode(bytes)[2..] == HexEncode(bytes[1..]);
    }
  }

  lemma {:induction false} DecodeAt(s: string, i: nat)
    requires HexDecode(s).Some? && 2 * i < |s|
    ensures |s| == 2 * |HexDecode(s).value|
    ensures DigitValue(s[2 * i]) == Some(HexDecode(s).value[i] / 16)
    ensures DigitValue(s[2 * i + 1]) == Some(HexDecode(s).value[i] % 16)
  {
    DecodeAccepts(s);
    if i == 0 {
      DigitRange(s[0]);
      DigitRange(s[1]);
    } else {
      DecodeAt(s[2..], i - 1);
    }
  }

  // The text sent for a txid, character by character: the byte order on the
  // wire is the reverse of the one held, in lower-case digits.
  lemma {:induction false} DisplaySpells(t: Txid)
    ensures |Display(t)| == 64 && Spells(Display(t), t)
    ensures forall i :: 0 <= i < 32 ==>
              && Display(t)[2 * i] == LOWER_DIGITS[t.bytes[31 - i] / 16]
              && Display(t)[2 * i + 1] == LOWER_DIGITS[t.bytes[31 - i] % 16]
  {
    DisplayNames(t);
    forall i | 0 <= i < 32
      ensures Display(t)[2 * i] == LOWER_DIGITS[t.bytes[31 - i] / 16]
      ensures Display(t)[2 * i + 1] == LOWER_DIGITS[t.bytes[31 - i] % 16]
      ensures SpellsByte(Display(t), t, i)
    {
      EncodeAt(Reversed(t.bytes), i);
    }
  }

  // A text names the txid it spells, and no other; one that spells none names none.
  lemma {:induction false} NamesWhatItSpells(text: string, t: Txid)
    ensures Named(text) == Some(t) <==> Spells(text, t)
  {
    hide Spells, Named;
    if Spells(text, t) {
      SpelledIsNamed(text, t);
    }
    if Named(text).Some? {
      NamedIsSpelled(text);
      if Spells(text, t) {
        SpellsOne(text, t, Named(text).value);
      }
    }
  }

  lemma {:induction false} NamedIsSpelled(text: string)
    requires Named(text).Some?
    ensures Spells(text, Named(text).value)
  {
    hide SpellsByte;
    NamedExactly(text);
    forall i | 0 <= i < 32 ensures SpellsByte(text, Named(text).value, i) {
      NamedByte(text, i);
    }
  }

  lemma {:induction false} SpellsOne(text: string, t: Txid, u: Txid)
    requires Spells(text, t) && Spells(text, u)
    ensures t == u
  {
    hide SpellsByte;
    forall k | 0 <= k < 32 ensures t.bytes[k] == u.bytes[k] {
      assert SpellsByte(text, t, 31 - k) && SpellsByte(text, u, 31 - k);
      OneByteSpelled(text, t, u, 31 - k);
    }
    assert t.bytes == u.bytes;
  }

  lemma {:induction false} SpelledIsNamed(text: string, t: Txid)
    requires Spells(text, t)
    ensures Named(text).Some?
  {
    hide SpellsByte, Named;
    forall k | 0 <= k < 64 ensures IsHexDigit(text[k]) {
      assert SpellsByte(text, t, k / 2);
      SpelledDigits(text, t, k / 2);
      assert k == 2 * (k / 2) || k == 2 * (k / 2) + 1;
    }
    NamedExactly(text);
  }

  lemma SpelledDigits(text: string, t: Txid, i: nat)
    requires |text| == 64 && i < 32 && SpellsByte(text, t, i)
    ensures IsHexDigit(text[2 * i]) && IsHexDigit(text[2 * i + 1])
  {
    DigitIs(text[2 * i], t.bytes[31 - i] / 16);
    DigitIs(text[2 * i + 1], t.bytes[31 - i] % 16);
  }

  lemma NamedByte(text: string, i: nat)
    requires Named(text).Some? && i < 32
    ensures |text| == 64 && SpellsByte(text, Named(text).value, i)
  {
    DecodeAt(text, i);
    var b := HexDecode(text).value[i];
    DigitIs(text[2 * i], b / 16);
    DigitIs(text[2 * i + 1], b % 16);
  }

  lemma OneByteSpelled(text: string, t: Txid, u: Txid, i: nat)
    requires |text| == 64 && i < 32 && SpellsByte(text, u, i) && SpellsByte(text, t, i)
    ensures t.bytes[31 - i] == u.bytes[31 - i]
  {
    DigitIs(text[2 * i], t.bytes[31 - i] / 16);
    DigitIs(text[2 * i], u.bytes[31 - i] / 16);
    DigitIs(text[2 * i + 1], t.bytes[31 - i] % 16);
    DigitIs(text[2 * i + 1], u.bytes[31 - i] % 16);
  }

  // A text names a txid exactly when it is 64 hex digits, and then the txid
  // is displayed as that text in lower case: the two directions are inverse.
  lemma NamedExactly(text: string)
    ensures Named(text).Some? <==> |text| == 64 && AllHex(text)
    ensures Named(text).Some? ==> Display(Named(text).value) == Lower(text)
  {
    DecodeAccepts(text);
    if Named(text).Some? {
      EncodeDecode(text);
      var bytes: Bytes32 := HexDecode(text).value;
      assert Reversed(Reversed(bytes)) == bytes;
    }
  }

  // The text spells some txid.
  ghost predicate Spellable(text: string)
  {
    exists t :: Spells(text, t)
  }

  method TxidsToInternalOrder(texts: seq<string>) returns (r: Result<seq<Txid>, RpcError>)
    ensures r.Ok? ==> |r.value| == |texts| && forall i :: 0 <= i < |texts| ==> Spells(texts[i], r.value[i])
    ensures r.Err? ==>
              exists k :: 0 <= k < |texts| && !Spellable(texts[k]) && r.error == RpcError(texts[k])
                          && forall i :: 0 <= i < k ==> Spellable(texts[i])
  {
    hide Spells;
    var out: seq<Txid> := [];
    for k := 0 to |texts|
      invariant |out| == k
      invariant forall i :: 0 <= i < k ==> Spells(texts[i], out[i])
    {
      forall t ensures Named(texts[k]) == Some(t) <==> Spells(texts[k], t) {
        NamesWhatItSpells(texts[k], t);
      }
      match ParseTxidHex(texts[k]) {
        case Err(e) =>
          assert Named(texts[k]).None?;
          return Err(e);
        case Ok(bytes) => out := out + [Txid(Reversed(bytes))];
      }
    }
    r := Ok(out);
  }

  function ProbeParams(txids: seq<Txid>): seq<string>
  {
    seq(|txids|, i requires 0 <= i < |txids| => Display(txids[i]))
  }

  // ---- Batches, section 6 of the JSON-RPC 2.0 specification ----

  datatype Fault = Fault(code: int, message: string)

  datatype BatchResponse<+R> = BatchResponse(id: Option<nat>, result: Option<R>, error: Option<Fault>)

  datatype BatchItem<+R> = Entry(reply: R) | Failed(code: int, message: string) | NoResponse

  // What one reply says. The error is read first: a reply carrying both is a failure.
  function Content<R>(resp: BatchResponse<R>): BatchItem<R>
  {
    match (resp.error, resp.result)
    case (Some(e), _) => Failed(e.code, e.message)
    case (None, Some(r)) => Entry(r)
    case (None, None) => NoResponse
  }

  function ClaimsId<R>(i: nat): BatchResponse<R> -> bool
  {
    (resp: BatchResponse<R>) => resp.id == Some(i)
  }

  // The replies that claim to answer request i.
  function Claims<R>(responses: seq<BatchResponse<R>>, i: nat): seq<BatchResponse<R>>
  {
    Filter(responses, ClaimsId<R>(i))
  }

  // Request i is answered by the only reply that claims it, or not at all.
  function ItemFor<R>(responses: seq<BatchResponse<R>>, i: nat): BatchItem<R>
  {
    var claims := Claims(responses, i);
    if |claims| == 1 then Content(claims[0]) else NoResponse
  }

  ghost predicate Correlated<R>(responses: seq<BatchResponse<R>>, slot: Option<BatchItem<R>>, dup: bool, i: nat)
  {
    var claims := Claims(responses, i);
    && slot == (if claims == [] then None else Some(Content(claims[0])))
    && dup == (|claims| >= 2)
  }

  lemma CorrelatedStep<R>(responses: seq<BatchResponse<R>>, resp: BatchResponse<R>,
                          slot: Option<BatchItem<R>>, dup: bool, i: nat)
    requires Correlated(responses, slot, dup, i)
    ensures resp.id != Some(i) ==> Correlated(responses + [resp], slot, dup, i)
    ensures resp.id == Some(i) && slot.Some? ==> Correlated(responses + [resp], slot, true, i)
    ensures resp.id == Some(i) && slot.None? ==> Correlated(responses + [resp], Some(Content(resp)), dup, i)
  {
    FilterAppend(responses, resp, ClaimsId<R>(i));
  }

  method ResolveBatch<R>(responses: seq<BatchResponse<R>>, requestCount: nat) returns (items: seq<BatchItem<R>>)
    ensures |items| == requestCount
    ensures forall i :: 0 <= i < requestCount ==> items[i] == ItemFor(responses, i)
  {
    var slots := new Option<BatchItem<R>>[requestCount](_ => None);
    var duplicated := new bool[requestCount](_ => false);
    for k := 0 to |responses|
      invariant forall i :: 0 <= i < requestCount ==> Correlated(responses[..k], slots[i], duplicated[i], i)
    {
      var resp := responses[k];
      assert responses[..k + 1] == responses[..k] + [resp];
      forall i | 0 <= i < requestCount
        ensures resp.id != Some(i) ==> Correlated(responses[..k + 1], slots[i], duplicated[i], i)
        ensures resp.id == Some(i) && slots[i].Some? ==> Correlated(responses[..k + 1], slots[i], true, i)
        ensures resp.id == Some(i) && slots[i].None? ==>
                  Correlated(responses[..k + 1], Some(Content(resp)), duplicated[i], i)
      {
        CorrelatedStep(responses[..k], resp, slots[i], duplicated[i], i);
      }
      if resp.id.None? || resp.id.value >= requestCount { continue; }
      var idx := resp.id.value;
      if slots[idx].Some? {
        duplicated[idx] := true;
        continue;
      }
      slots[idx] := Some(Content(resp));
    }
    assert responses[..|responses|] == responses;
    items := [];
    for i := 0 to requestCount
      invariant |items| == i
      invariant forall j :: 0 <= j < i ==> items[j] == ItemFor(responses, j)
    {
      assert Correlated(responses, slots[i], duplicated[i], i);
      var item := if duplicated[i] || slots[i].None? then NoResponse else slots[i].value;
      items := items + [item];
    }
  }

  // Reordering the replies of a batch changes no item.
  lemma ReplyOrderIrrelevant<R(!new)>(a: seq<BatchResponse<R>>, b: seq<BatchResponse<R>>, i: nat)
    requires multiset(a) == multiset(b)
    ensures ItemFor(a, i) == ItemFor(b, i)
  {
    var ca, cb := Claims(a, i), Claims(b, i);
    forall x ensures multiset(ca)[x] == multiset(cb)[x] {
      FilterMultiset(a, ClaimsId<R>(i), x);
      FilterMultiset(b, ClaimsId<R>(i), x);
    }
    assert multiset(ca) == multiset(cb);
    assert |ca| == |multiset(ca)| == |multiset(cb)| == |cb|;
    if |ca| == 1 {
      assert ca[0] in multiset(cb);
    }
  }

  // ---- Probe verdicts ----

  const MEMPOOL_MISSING_ENTRY_CODE := -5

  datatype MempoolProbe = Present | Absent | Unadjudicated

  function ProbeFromItem<R>(item: BatchItem<R>): MempoolProbe
  {
    match item
    case Entry(_) => Present
    case Failed(code, _) => if code == MEMPOOL_MISSING_ENTRY_CODE then Absent else Unadjudicated
    case NoResponse => Unadjudicated
  }

  // Some reply claims request i, no other one does, and it is resp.
  ghost predicate OnlyReply<R>(responses: seq<BatchResponse<R>>, i: nat, resp: BatchResponse<R>)
  {
    && resp.id == Some(i)
    && exists k :: 0 <= k < |responses| && responses[k] == resp
                   && forall j :: 0 <= j < |responses| && j != k ==> responses[j].id != Some(i)
  }

  // Nobody in these replies claims request i.
  ghost predicate Unclaimed<R>(responses: seq<BatchResponse<R>>, i: nat)
  {
    forall j :: 0 <= j < |responses| ==> responses[j].id != Some(i)
  }

  lemma {:induction false} UnclaimedIs<R(!new)>(responses: seq<BatchResponse<R>>, i: nat)
    ensures Claims(responses, i) == [] <==> Unclaimed(responses, i)
  {
    FilterMembers(responses, ClaimsId<R>(i));
    FilterAllOrNone(responses, ClaimsId<R>(i));
    if Claims(responses, i) == [] {
      forall j | 0 <= j < |responses| ensures responses[j].id != Some(i) {
        assert responses[j] in responses;
      }
    }
  }

  // One claimant by filtering is one claimant by index.
  lemma {:induction false} SoleClaimFound<R(!new)>(responses: seq<BatchResponse<R>>, i: nat)
    requires |Claims(responses, i)| == 1
    ensures OnlyReply(responses, i, Claims(responses, i)[0])
  {
    var n := |responses| - 1;
    var front, last := responses[..n], responses[n];
    assert responses == front + [last];
    FilterAppend(front, last, ClaimsId<R>(i));
    UnclaimedIs(front, i);
    if last.id == Some(i) {
      assert Unclaimed(front, i) && responses[n] == Claims(responses, i)[0];
      assert forall j :: 0 <= j < |responses| && j != n ==> responses[j] == front[j];
    } else {
      SoleClaimFound(front, i);
      var k :| 0 <= k < n && front[k] == Claims(front, i)[0]
               && forall j :: 0 <= j < n && j != k ==> front[j].id != Some(i);
      assert responses[k] == Claims(responses, i)[0];
      assert forall j :: 0 <= j < n ==> responses[j] == front[j];
    }
  }

  lemma {:induction false} OnlyReplyClaims<R(!new)>(responses: seq<BatchResponse<R>>, i: nat, resp: BatchResponse<R>)
    requires OnlyReply(responses, i, resp)
    ensures Claims(responses, i) == [resp]
  {
    var k :| 0 <= k < |responses| && responses[k] == resp
             && forall j :: 0 <= j < |responses| && j != k ==> responses[j].id != Some(i);
    var before, after := responses[..k], responses[k + 1..];
    assert responses == (before + [resp]) + after;
    FilterConcat(before + [resp], after, ClaimsId<R>(i));
    FilterAppend(before, resp, ClaimsId<R>(i));
    UnclaimedIs(before, i);
    UnclaimedIs(after, i);
  }

  // What each item is, by the replies: an entry or a failure exactly when
  // the only reply that claims the request carries it, error before result.
  lemma {:induction false} ItemExactly<R(!new)>(responses: seq<BatchResponse<R>>, i: nat)
    ensures forall r :: ItemFor(responses, i) == Entry(r) <==>
              exists resp :: OnlyReply(responses, i, resp) && resp.error == None && resp.result == Some(r)
    ensures forall code, text :: ItemFor(responses, i) == Failed(code, text) <==>
              exists resp :: OnlyReply(responses, i, resp) && resp.error == Some(Fault(code, text))
  {
    if |Claims(responses, i)| == 1 {
      SoleClaimFound(responses, i);
    }
    forall resp | OnlyReply(responses, i, resp) ensures Claims(responses, i) == [resp] {
      OnlyReplyClaims(responses, i, resp);
    }
  }

  // The whole verdict policy: absence is proven by one unambiguous -5 and by
  // nothing else, presence by one unambiguous entry.
  lemma VerdictEvidence<R(!new)>(responses: seq<BatchResponse<R>>, i: nat)
    ensures ProbeFromItem(ItemFor(responses, i)) == Absent <==>
            exists resp :: OnlyReply(responses, i, resp)
                           && resp.error.Some? && resp.error.value.code == MEMPOOL_MISSING_ENTRY_CODE
    ensures ProbeFromItem(ItemFor(responses, i)) == Present <==>
            exists resp :: OnlyReply(responses, i, resp) && resp.error.None? && resp.result.Some?
  {
    if |Claims(responses, i)| == 1 {
      SoleClaimFound(responses, i);
    }
    forall resp | OnlyReply(responses, i, resp) ensures Claims(responses, i) == [resp] {
      OnlyReplyClaims(responses, i, resp);
    }
  }
}
