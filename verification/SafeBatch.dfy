/**
 From the items of a payout batch to the USDC transfers of one Safe transaction file
 (backend/affiliates/safe_batch_export.py, backend/affiliates/evm_wallet.py).
 */
module SafeBatch {
  import opened Wrappers
  import opened PyText
  import opened Numerals
  import opened UsdcText

  // ----- wallets --------------------------------------------------------------------------

  predicate IsHexDigit(c: char) {
    '0' <= c <= '9' || 'a' <= c <= 'f' || 'A' <= c <= 'F'
  }

  /** `^0x[a-fA-F0-9]{40}$` on a stripped text */
  predicate IsAddress(s: string) {
    |s| == 42 && s[..2] == "0x" && forall i | 2 <= i < 42 :: IsHexDigit(s[i])
  }

  /** `validate_evm_wallet_address`, where `checksum` puts an address in its mixed-case form. */
  function NormAddr(raw: string, checksum: string -> string): Option<string> {
    var s := Strip(raw);
    if IsAddress(s) then Some(checksum(s)) else None
  }

  /** A checksum changes nothing but the case of letters, and does not depend on it. */
  ghost predicate IsChecksum(checksum: string -> string) {
    && (forall s | IsAddress(s) :: IsAddress(checksum(s)) && Lower(checksum(s)) == Lower(s))
    && forall s, t | IsAddress(s) && IsAddress(t) && Lower(s) == Lower(t) :: checksum(s) == checksum(t)
  }

  /** A normalised wallet normalises to itself. */
  lemma NormAddrTwice(raw: string, checksum: string -> string)
    requires IsChecksum(checksum) && NormAddr(raw, checksum).Some?
    ensures var w := NormAddr(raw, checksum).value;
      IsAddress(w) && Strip(w) == w && NormAddr(w, checksum) == Some(w)
  {
    var w := checksum(Strip(raw));
    assert w[0] == '0' && IsHexDigit(w[41]);
    StripFixes(w);
  }

  // ----- items and transfers --------------------------------------------------------------

  datatype Item = Item(wallet: string, amountUsd: real, amountUsdc: string)

  datatype Transfer = Transfer(recipient: string, amount: nat)

  datatype ExportError = NoItems | MissingWallet | InvalidWallet | ZeroPayout

  /** What the code takes from outside: the address checksum and the rest of `Decimal`. */
  datatype Tools = Tools(checksum: string -> string, other: string -> Option<real>)

  /** The units of `_item_usdc_micros`: the stored text if it reads as a number, or else the dollars. */
  function ItemMicros(it: Item, tools: Tools): nat {
    var raw := Strip(it.amountUsdc);
    var read := ReadDecimal(raw, tools.other);
    if raw != "" && read.Some? then Micros(read.value) else Micros(it.amountUsd)
  }

  /** `_item_usdc_micros`: the item's own wallet, or the fallback when it has none. */
  function Resolve(it: Item, fallback: string, tools: Tools): Option<Transfer> {
    var w := Strip(it.wallet);
    match NormAddr(if w != "" then w else fallback, tools.checksum)
    case Some(wallet) => Some(Transfer(wallet, ItemMicros(it, tools)))
    case None => None
  }

  function ResolveAll(items: seq<Item>, fallback: string, tools: Tools): Option<seq<Transfer>> {
    if items == [] then Some([])
    else
      var first, rest := Resolve(items[0], fallback, tools), ResolveAll(items[1..], fallback, tools);
      if first.Some? && rest.Some? then Some([first.value] + rest.value) else None
  }

  /** The first wallet that is not blank, normalised. */
  function Fallback(items: seq<Item>, tools: Tools): Option<string> {
    if items == [] then None
    else
      var w := Strip(items[0].wallet);
      if w != "" then NormAddr(w, tools.checksum) else Fallback(items[1..], tools)
  }

  // ----- one entry per wallet ----------------------------------------------------------------

  function Total(ts: seq<Transfer>): nat {
    if ts == [] then 0 else ts[0].amount + Total(ts[1..])
  }

  /** What one wallet gets out of a list of transfers. */
  function AmountTo(ts: seq<Transfer>, w: string): nat {
    if ts == [] then 0 else (if ts[0].recipient == w then ts[0].amount else 0) + AmountTo(ts[1..], w)
  }

  /** `by_wallet[w] += micros` on a dictionary in insertion order. */
  function AddTo(d: seq<Transfer>, t: Transfer): seq<Transfer> {
    if d == [] then [t]
    else if d[0].recipient == t.recipient then [d[0].(amount := d[0].amount + t.amount)] + d[1..]
    else [d[0]] + AddTo(d[1..], t)
  }

  function Gather(ts: seq<Transfer>): seq<Transfer> {
    if ts == [] then [] else AddTo(Gather(ts[..|ts| - 1]), ts[|ts| - 1])
  }

  predicate Distinct(d: seq<Transfer>) {
    forall i, j | 0 <= i < j < |d| :: d[i].recipient != d[j].recipient
  }

  /** `sorted(..., key=lower)`, which keeps equal keys in order. */
  function Sort(d: seq<Transfer>): seq<Transfer> {
    if d == [] then [] else Insert(d[0], Sort(d[1..]))
  }

  function Insert(t: Transfer, d: seq<Transfer>): seq<Transfer> {
    if d == [] || NotAfter(t, d[0]) then [t] + d
    else [d[0]] + Insert(t, d[1..])
  }

  predicate NotAfter(t: Transfer, x: Transfer) {
    !Before(Lower(x.recipient), Lower(t.recipient))
  }

  /** Sorted by wallet in lower case. */
  predicate Ascending(d: seq<Transfer>) {
    forall i, j | 0 <= i < j < |d| :: NotAfter(d[i], d[j])
  }

  /** Wallets that get nothing are left out. */
  function Positive(d: seq<Transfer>): seq<Transfer> {
    if d == [] then []
    else (if d[0].amount > 0 then [d[0]] else []) + Positive(d[1..])
  }

  // ----- the export --------------------------------------------------------------------------

  function Export(items: seq<Item>, tools: Tools): Result<seq<Transfer>, ExportError> {
    if items == [] then Failure(NoItems)
    else
      match Fallback(items, tools)
      case None => Failure(MissingWallet)
      case Some(fallback) =>
        match ResolveAll(items, fallback, tools)
        case None => Failure(InvalidWallet)
        case Some(ts) =>
          var txs := Positive(Sort(Gather(ts)));
          if txs == [] then Failure(ZeroPayout) else Success(txs)
  }

  /** The transfers of `build_safe_payout_batch_json`, once batch and items are read from the store. */
  method BuildTransactions(items: seq<Item>, tools: Tools) returns (r: Result<seq<Transfer>, ExportError>)
    ensures r == Export(items, tools)
  {
    if items == [] {
      return Failure(NoItems);
    }
    var fallback := Fallback(items, tools);
    if fallback.None? {
      return Failure(MissingWallet);
    }
    var byWallet: Option<seq<Transfer>> := Aggregate(items, fallback.value, tools);
    if byWallet.None? {
      return Failure(InvalidWallet);
    }
    var transactions := Payments(Sort(byWallet.value));
    return if transactions == [] then Failure(ZeroPayout) else Success(transactions);
  }

  /** The loop that fills `by_wallet`; a wallet that does not validate ends it. */
  method Aggregate(items: seq<Item>, fallback: string, tools: Tools) returns (byWallet: Option<seq<Transfer>>)
    ensures var ts := ResolveAll(items, fallback, tools);
      byWallet == if ts.Some? then Some(Gather(ts.value)) else None
  {
    var d: seq<Transfer> := [];
    ghost var done: seq<Transfer> := [];
    ghost var all := ResolveAll(items, fallback, tools);
    JoinedEnds(all);
    assert items[0..] == items;
    for i := 0 to |items|
      invariant d == Gather(done)
      invariant all == Joined(done, ResolveAll(items[i..], fallback, tools))
    {
      ResolveNext(items, i, fallback, tools, done);
      var t := Resolve(items[i], fallback, tools);
      if t.None? {
        return None;
      }
      assert (done + [t.value])[..|done|] == done;
      done := done + [t.value];
      d := AddTo(d, t.value);
    }
    JoinedEnds(Some(done));
    return Some(d);
  }

  ghost function Joined(done: seq<Transfer>, rest: Option<seq<Transfer>>): Option<seq<Transfer>> {
    if rest.Some? then Some(done + rest.value) else None
  }

  lemma JoinedEnds(ts: Option<seq<Transfer>>)
    ensures Joined([], ts) == ts && (ts.Some? ==> Joined(ts.value, Some([])) == ts)
  {
    assert ts.Some? ==> [] + ts.value == ts.value && ts.value + [] == ts.value;
  }

  /** One item further. */
  lemma ResolveNext(items: seq<Item>, i: nat, fallback: string, tools: Tools, done: seq<Transfer>)
    requires i < |items|
    ensures var first, rest := Resolve(items[i], fallback, tools), ResolveAll(items[i + 1..], fallback, tools);
      Joined(done, ResolveAll(items[i..], fallback, tools))
        == if first.Some? then Joined(done + [first.value], rest) else None
  {
    var first, rest := Resolve(items[i], fallback, tools), ResolveAll(items[i + 1..], fallback, tools);
    assert items[i..][0] == items[i] && items[i..][1..] == items[i + 1..];
    if first.Some? && rest.Some? {
      assert done + ([first.value] + rest.value) == (done + [first.value]) + rest.value;
    }
  }

  /** The loop that writes the transactions. */
  method Payments(sorted: seq<Transfer>) returns (txs: seq<Transfer>)
    ensures txs == Positive(sorted)
  {
    txs := [];
    assert sorted[0..] == sorted;
    for i := 0 to |sorted|
      invariant Positive(sorted) == txs + Positive(sorted[i..])
    {
      assert sorted[i..][0] == sorted[i] && sorted[i..][1..] == sorted[i + 1..];
      if sorted[i].amount <= 0 {
        continue;
      }
      txs := txs + [sorted[i]];
    }
  }

  // ----- conservation ------------------------------------------------------------------------

  lemma {:induction false} AddToSums(d: seq<Transfer>, t: Transfer, w: string)
    ensures AmountTo(AddTo(d, t), w) == AmountTo(d, w) + (if t.recipient == w then t.amount else 0)
    ensures Total(AddTo(d, t)) == Total(d) + t.amount
  {
    if d == [] {
      assert [t][1..] == [];
    } else if d[0].recipient != t.recipient {
      AddToSums(d[1..], t, w);
      assert AddTo(d, t)[1..] == AddTo(d[1..], t);
    } else {
      assert AddTo(d, t)[1..] == d[1..];
    }
  }

  lemma {:induction false} AddToDistinct(d: seq<Transfer>, t: Transfer)
    requires Distinct(d)
    ensures Distinct(AddTo(d, t))
    ensures forall x | x in AddTo(d, t) ::
      x.recipient == t.recipient || exists y :: y in d && y.recipient == x.recipient
  {
    if d != [] && d[0].recipient != t.recipient {
      AddToDistinct(d[1..], t);
      var rest := AddTo(d[1..], t);
      forall j | 0 <= j < |rest| ensures rest[j].recipient != d[0].recipient {
        assert rest[j] in rest;
      }
      assert AddTo(d, t) == [d[0]] + rest;
    }
  }

  lemma {:induction false} AppendSums(a: seq<Transfer>, b: seq<Transfer>, w: string)
    ensures AmountTo(a + b, w) == AmountTo(a, w) + AmountTo(b, w) && Total(a + b) == Total(a) + Total(b)
  {
    if a == [] {
      assert a + b == b;
    } else {
      assert (a + b)[1..] == a[1..] + b;
      AppendSums(a[1..], b, w);
    }
  }

  lemma {:induction false} GatherSums(ts: seq<Transfer>, w: string)
    ensures AmountTo(Gather(ts), w) == AmountTo(ts, w) && Total(Gather(ts)) == Total(ts)
    ensures Distinct(Gather(ts))
  {
    if ts != [] {
      var n := |ts| - 1;
      GatherSums(ts[..n], w);
      AddToSums(Gather(ts[..n]), ts[n], w);
      AddToDistinct(Gather(ts[..n]), ts[n]);
      AppendSums(ts[..n], [ts[n]], w);
      assert ts == ts[..n] + [ts[n]] && [ts[n]][1..] == [];
    }
  }

  lemma {:induction false} InsertSums(t: Transfer, d: seq<Transfer>, w: string)
    ensures AmountTo(Insert(t, d), w) == (if t.recipient == w then t.amount else 0) + AmountTo(d, w)
    ensures Total(Insert(t, d)) == t.amount + Total(d)
  {
    if d == [] || NotAfter(t, d[0]) {
      assert ([t] + d)[1..] == d;
    } else {
      InsertSums(t, d[1..], w);
      assert ([d[0]] + Insert(t, d[1..]))[1..] == Insert(t, d[1..]);
    }
  }

  lemma {:induction false} InsertMembers(t: Transfer, d: seq<Transfer>)
    ensures forall x :: x in Insert(t, d) <==> x == t || x in d
  {
    if d != [] && !NotAfter(t, d[0]) {
      InsertMembers(t, d[1..]);
      assert d == [d[0]] + d[1..];
    }
  }

  lemma {:induction false} InsertAscends(t: Transfer, d: seq<Transfer>)
    requires Ascending(d)
    ensures Ascending(Insert(t, d))
  {
    if d == [] || NotAfter(t, d[0]) {
      forall x | x in d ensures NotAfter(t, x) { NotAfterChain(t, d, x); }
    } else {
      InsertAscends(t, d[1..]);
      InsertMembers(t, d[1..]);
      BeforeIsAsymmetric(Lower(d[0].recipient), Lower(t.recipient));
      var rest := Insert(t, d[1..]);
      forall j | 0 <= j < |rest| ensures NotAfter(d[0], rest[j]) { assert rest[j] in rest; }
    }
  }

  /** In an ascending list whose first entry t may precede, t may precede every entry. */
  lemma NotAfterChain(t: Transfer, d: seq<Transfer>, x: Transfer)
    requires Ascending(d) && x in d && NotAfter(t, d[0])
    ensures NotAfter(t, x)
  {
    var i :| 0 <= i < |d| && d[i] == x;
    if i > 0 {
      assert NotAfter(d[0], x);
      NotAfterTransitive(Lower(t.recipient), Lower(d[0].recipient), Lower(x.recipient));
    }
  }

  lemma NotAfterTransitive(a: string, b: string, c: string)
    requires !Before(b, a) && !Before(c, b)
    ensures !Before(c, a)
  {
    if Before(c, a) {
      BeforeIsTotal(a, b);
      if a != b {
        BeforeIsTransitive(c, a, b);
      }
    }
  }

  lemma {:induction false} InsertDistinct(t: Transfer, d: seq<Transfer>)
    requires Distinct(d) && forall x | x in d :: x.recipient != t.recipient
    ensures Distinct(Insert(t, d))
  {
    if d != [] && !NotAfter(t, d[0]) {
      InsertDistinct(t, d[1..]);
      InsertMembers(t, d[1..]);
      var rest := Insert(t, d[1..]);
      forall j | 0 <= j < |rest| ensures rest[j].recipient != d[0].recipient { assert rest[j] in rest; }
    }
  }

  lemma {:induction false} SortSums(d: seq<Transfer>, w: string)
    ensures AmountTo(Sort(d), w) == AmountTo(d, w) && Total(Sort(d)) == Total(d)
  {
    if d != [] {
      SortSums(d[1..], w);
      InsertSums(d[0], Sort(d[1..]), w);
    }
  }

  lemma {:induction false} SortOrders(d: seq<Transfer>)
    requires Distinct(d)
    ensures (forall x :: x in Sort(d) <==> x in d) && Ascending(Sort(d)) && Distinct(Sort(d))
  {
    if d != [] {
      SortOrders(d[1..]);
      InsertMembers(d[0], Sort(d[1..]));
      InsertAscends(d[0], Sort(d[1..]));
      InsertDistinct(d[0], Sort(d[1..]));
      assert d == [d[0]] + d[1..];
    }
  }

  lemma {:induction false} PositiveSums(d: seq<Transfer>, w: string)
    ensures AmountTo(Positive(d), w) == AmountTo(d, w) && Total(Positive(d)) == Total(d)
    ensures Positive(d) == [] <==> Total(d) == 0
  {
    if d != [] {
      PositiveSums(d[1..], w);
      var head := if d[0].amount > 0 then [d[0]] else [];
      AppendSums(head, Positive(d[1..]), w);
      assert head != [] ==> head[1..] == [];
    }
  }

  lemma FirstOfOrdered(d: seq<Transfer>)
    requires d != [] && Distinct(d) && Ascending(d)
    ensures Distinct(d[1..]) && Ascending(d[1..])
    ensures forall x | x in d[1..] :: NotAfter(d[0], x) && x.recipient != d[0].recipient && x in d
  {
    forall x | x in d[1..] ensures NotAfter(d[0], x) && x.recipient != d[0].recipient && x in d {
      var i :| 0 <= i < |d[1..]| && d[1..][i] == x;
      assert d[i + 1] == x;
    }
  }

  lemma {:induction false} PositiveOrders(d: seq<Transfer>)
    requires Distinct(d) && Ascending(d)
    ensures Distinct(Positive(d)) && Ascending(Positive(d))
    ensures forall x | x in Positive(d) :: x in d && x.amount > 0
  {
    if d != [] {
      var rest := Positive(d[1..]);
      PositiveOrders(d[1..]);
      FirstOfOrdered(d);
      forall j | 0 <= j < |rest| ensures NotAfter(d[0], rest[j]) && rest[j].recipient != d[0].recipient {
        assert rest[j] in rest && rest[j] in d[1..];
      }
      assert Positive(d) == (if d[0].amount > 0 then [d[0]] else []) + rest;
    }
  }

  /**
   Grouping by wallet loses nothing: every wallet gets exactly what its items add up to,
   in one transfer, and the transfers add up to the items.
   */
  lemma ExportConserves(items: seq<Item>, tools: Tools, w: string)
    requires Export(items, tools).Success?
    ensures var txs := Export(items, tools).value;
      var owed := ResolveAll(items, Fallback(items, tools).value, tools).value;
      && AmountTo(txs, w) == AmountTo(owed, w) && Total(txs) == Total(owed)
      && Distinct(txs) && Ascending(txs) && forall x | x in txs :: x.amount > 0
  {
    var owed := ResolveAll(items, Fallback(items, tools).value, tools).value;
    GatherSums(owed, w);
    SortSums(Gather(owed), w);
    SortOrders(Gather(owed));
    PositiveSums(Sort(Gather(owed)), w);
    PositiveOrders(Sort(Gather(owed)));
  }

  /** Exactly when there is something to export. */
  lemma ExportSucceedsExactly(items: seq<Item>, tools: Tools)
    ensures Export(items, tools).Success? <==>
      && Fallback(items, tools).Some?
      && (forall i | 0 <= i < |items| :: Resolve(items[i], Fallback(items, tools).value, tools).Some?)
      && exists i | 0 <= i < |items| :: ItemMicros(items[i], tools) > 0
  {
    var fallback := Fallback(items, tools);
    if fallback.Some? {
      ResolveAllExactly(items, fallback.value, tools);
      if ResolveAll(items, fallback.value, tools).Some? {
        var owed := ResolveAll(items, fallback.value, tools).value;
        GatherSums(owed, "");
        SortSums(Gather(owed), "");
        PositiveSums(Sort(Gather(owed)), "");
      }
    }
  }

  lemma {:induction false} ResolveAllExactly(items: seq<Item>, fallback: string, tools: Tools)
    ensures ResolveAll(items, fallback, tools).Some?
      <==> forall i | 0 <= i < |items| :: Resolve(items[i], fallback, tools).Some?
    ensures var owed := ResolveAll(items, fallback, tools);
      owed.Some? ==> (Total(owed.value) > 0 <==> exists i | 0 <= i < |items| :: ItemMicros(items[i], tools) > 0)
  {
    if items != [] {
      ResolveAllExactly(items[1..], fallback, tools);
      var rest := ResolveAll(items[1..], fallback, tools);
      assert forall i | 1 <= i < |items| :: items[i] == items[1..][i - 1];
      assert forall i | 0 <= i < |items[1..]| :: items[1..][i] == items[i + 1];
      if Resolve(items[0], fallback, tools).Some? && rest.Some? {
        var first := Resolve(items[0], fallback, tools).value;
        assert ([first] + rest.value)[1..] == rest.value;
      }
    }
  }

  // ----- what each item is worth, and every way to fail -----------------------------------------

  /** Forty hexadecimal digits of either case behind "0x". */
  lemma AddressExactly(s: string)
    ensures IsAddress(s) <==>
      |s| == 42 && s[0] == '0' && s[1] == 'x' && forall i | 2 <= i < 42 :: s[i] in "0123456789abcdefABCDEF"
  {
    forall c ensures IsHexDigit(c) <==> c in "0123456789abcdefABCDEF" { HexDigitTable(c); }
  }

  lemma HexDigitTable(c: char)
    ensures IsHexDigit(c) <==> c in "0123456789abcdefABCDEF"
  {
  }

  /** A stored amount counts whatever the dollars say. */
  lemma StoredTextWins(it: Item, units: nat, more: nat, tools: Tools)
    requires Strip(it.amountUsdc) == Fixed(units, more)
    ensures ItemMicros(it, tools) == units
  {
    DigitsRoundTrip(units / UNIT);
    ReadFixed(units, more, tools.other);
    MicrosOfUsdc(units);
  }

  /** Without one, or with one that does not read, the dollars count. */
  lemma DollarsOtherwise(it: Item, tools: Tools)
    requires Strip(it.amountUsdc) == "" || ReadDecimal(Strip(it.amountUsdc), tools.other).None?
    ensures ItemMicros(it, tools) == Micros(it.amountUsd)
  {
  }

  /** An item pays its own wallet, or the fallback when it names none. */
  lemma ResolveExactly(it: Item, fallback: string, tools: Tools)
    ensures Strip(it.wallet) != "" ==>
      Resolve(it, fallback, tools) ==
        if IsAddress(Strip(it.wallet)) then Some(Transfer(tools.checksum(Strip(it.wallet)), ItemMicros(it, tools)))
        else None
    ensures Strip(it.wallet) == "" && IsAddress(Strip(fallback)) ==>
      Resolve(it, fallback, tools) == Some(Transfer(tools.checksum(Strip(fallback)), ItemMicros(it, tools)))
  {
    var _, _ := StripTrims(it.wallet);
    StripFixes(Strip(it.wallet));
  }

  /** What is owed, item by item. */
  lemma {:induction false} OwedExactly(items: seq<Item>, fallback: string, tools: Tools)
    requires ResolveAll(items, fallback, tools).Some?
    ensures var owed := ResolveAll(items, fallback, tools).value;
      |owed| == |items| && forall i | 0 <= i < |items| :: Resolve(items[i], fallback, tools) == Some(owed[i])
  {
    if items != [] {
      OwedExactly(items[1..], fallback, tools);
    }
  }

  /** The fallback is the first wallet that is not blank, and has to be valid. */
  lemma {:induction false} FallbackExactly(items: seq<Item>, i: nat, tools: Tools)
    requires i <= |items| && forall k | 0 <= k < i :: Strip(items[k].wallet) == ""
    requires i < |items| ==> Strip(items[i].wallet) != ""
    ensures Fallback(items, tools) ==
      if i < |items| && IsAddress(Strip(items[i].wallet)) then Some(tools.checksum(Strip(items[i].wallet))) else None
  {
    if i > 0 {
      FallbackExactly(items[1..], i - 1, tools);
    } else if items != [] {
      var _, _ := StripTrims(items[0].wallet);
      StripFixes(Strip(items[0].wallet));
    }
  }

  /** Every way to fail, told exactly; the first that applies is reported. */
  lemma ExportFailsExactly(items: seq<Item>, tools: Tools)
    ensures var r, fallback := Export(items, tools), Fallback(items, tools);
      && (r == Failure(NoItems) <==> items == [])
      && (r == Failure(MissingWallet) <==> items != [] && fallback.None?)
      && (r == Failure(InvalidWallet) <==>
            fallback.Some? && exists i | 0 <= i < |items| :: Resolve(items[i], fallback.value, tools).None?)
      && (r == Failure(ZeroPayout) <==>
            && fallback.Some? && (forall i | 0 <= i < |items| :: Resolve(items[i], fallback.value, tools).Some?)
            && forall i | 0 <= i < |items| :: ItemMicros(items[i], tools) == 0)
  {
    ExportSucceedsExactly(items, tools);
    var fallback := Fallback(items, tools);
    if fallback.Some? {
      ResolveAllExactly(items, fallback.value, tools);
    }
  }
}
