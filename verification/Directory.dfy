/**
  * The directory walk of `zds_list_members` in native/c/zds.cpp: 256-byte directory blocks,
  * a halfword count, entries of twelve bytes and as many halfwords of user data as the info
  * byte says, and an entry of all ones to end the directory.
  */
module Directory {
  import opened Common
  import Glob

  const BLOCK_SIZE := 256
  const COUNT_SIZE := 2
  const ENTRY_SIZE := 12
  const NAME_SIZE := 8
  const HIGH: byte := 0xFF

  const DEFAULT_MAX_ENTRIES := 5000
  const SUCCESS := 0
  const WARNING := 1

  // ---------- the directory as data ----------

  datatype Entry = Entry(name: seq<byte>, ttr: seq<byte>, info: byte, userData: seq<byte>) {
    predicate WellFormed() {
      && |name| == 8 && |ttr| == 3
      && |userData| == 2 * (info % 32)
      && name != HighName()
    }

    function Bytes(): seq<byte> { name + ttr + [info] + userData }
  }

  /** `tail` is what follows the all-ones name in the last entry of the directory. */
  datatype Ending = Open | Terminated(tail: seq<byte>)

  /** One block: its entries, whether the directory ends here, and stale bytes behind them. */
  datatype DirBlock = DirBlock(entries: seq<Entry>, ending: Ending, filler: seq<byte>)

  function HighName(): (r: seq<byte>)
    ensures |r| == 8 && forall i :: 0 <= i < 8 ==> r[i] == 0xFF
  {
    seq(NAME_SIZE, i => HIGH)
  }

  function EntriesBytes(es: seq<Entry>): seq<byte> {
    if es == [] then [] else es[0].Bytes() + EntriesBytes(es[1..])
  }

  function EndingBytes(e: Ending): seq<byte> {
    match e
    case Open => []
    case Terminated(tail) => HighName() + tail
  }

  function Payload(b: DirBlock): seq<byte> { EntriesBytes(b.entries) + EndingBytes(b.ending) }

  predicate WellFormed(b: DirBlock) {
    && (forall e <- b.entries :: e.WellFormed())
    && (b.ending.Terminated? ==> |b.ending.tail| == 4)
    && (b.entries != [] || b.ending.Terminated?)
    && 2 + |Payload(b)| + |b.filler| == 256
  }

  function BlockBytes(b: DirBlock): (r: seq<byte>)
    requires WellFormed(b)
    ensures |r| == 256
  {
    var count := 2 + |Payload(b)|;
    [count / 256, count % 256] + Payload(b) + b.filler
  }

  function AllEntries(dirs: seq<DirBlock>): seq<Entry> {
    if dirs == [] then [] else AllEntries(dirs[..|dirs| - 1]) + dirs[|dirs| - 1].entries
  }

  // ---------- what should be listed ----------

  /** A member name ends at its first blank (or NUL). */
  function NameText(name: seq<byte>): (r: seq<byte>)
    ensures |r| <= |name| && r == name[..|r|] && 0x40 !in r && 0x00 !in r
    ensures |r| < |name| ==> name[|r|] == 0x40 || name[|r|] == 0x00
  {
    if name == [] || name[0] == BLANK || name[0] == NUL then [] else [name[0]] + NameText(name[1..])
  }

  predicate Selected(pattern: seq<byte>, e: Entry) {
    pattern == [] || Glob.Scan(pattern, NameText(e.name), 0, 0, Glob.NoStar)
  }

  function Listing(pattern: seq<byte>, es: seq<Entry>): seq<seq<byte>> {
    if es == [] then []
    else
      var init, last := Listing(pattern, es[..|es| - 1]), es[|es| - 1];
      if Selected(pattern, last) then init + [NameText(last.name)] else init
  }

  /** Which members are selected. */
  function Chosen(pattern: seq<byte>, es: seq<Entry>): (chosen: seq<bool>)
    ensures |chosen| == |es|
  {
    seq(|es|, k requires 0 <= k < |es| => Selected(pattern, es[k]))
  }

  /** The places that are chosen, each once and in order. */
  predicate ArePlaces(chosen: seq<bool>, places: seq<nat>) {
    && (forall j :: 0 <= j < |places| ==> places[j] < |chosen| && chosen[places[j]])
    && (forall i, j :: 0 <= i < j < |places| ==> places[i] < places[j])
    && (forall k :: 0 <= k < |chosen| && chosen[k] ==> k in places)
  }

  lemma {:induction false} OnePlaceMore(chosen: seq<bool>, last: bool, places: seq<nat>)
    requires ArePlaces(chosen, places)
    ensures ArePlaces(chosen + [last], if last then places + [|chosen|] else places)
  {
    var all, now := chosen + [last], if last then places + [|chosen|] else places;
    forall k | 0 <= k < |all| && all[k]
      ensures k in now
    {
      if k < |chosen| {
        assert chosen[k] && k in places;
      } else {
        assert now[|places|] == k;
      }
    }
  }

  predicate NamesAt(es: seq<Entry>, places: seq<nat>, names: seq<seq<byte>>) {
    |names| == |places| && forall j :: 0 <= j < |places| ==> places[j] < |es| && names[j] == NameText(es[places[j]].name)
  }

  lemma {:induction false} OneNameMore(es: seq<Entry>, last: Entry, places: seq<nat>, names: seq<seq<byte>>, chosen: bool)
    requires NamesAt(es, places, names)
    ensures NamesAt(es + [last], if chosen then places + [|es|] else places, if chosen then names + [NameText(last.name)] else names)
  {
  }

  lemma {:induction false} ListingNext(pattern: seq<byte>, es: seq<Entry>, last: Entry)
    ensures Listing(pattern, es + [last]) ==
            if Selected(pattern, last) then Listing(pattern, es) + [NameText(last.name)] else Listing(pattern, es)
    ensures Chosen(pattern, es + [last]) == Chosen(pattern, es) + [Selected(pattern, last)]
  {
    assert (es + [last])[..|es|] == es;
  }

  /** What is listed: the names of the members that are selected, each once, in the order of the directory. */
  lemma {:induction false} ListedAtPlaces(pattern: seq<byte>, es: seq<Entry>) returns (places: seq<nat>)
    ensures ArePlaces(Chosen(pattern, es), places) && NamesAt(es, places, Listing(pattern, es))
  {
    if es == [] {
      places := [];
    } else {
      var init, last := es[..|es| - 1], es[|es| - 1];
      var before := ListedAtPlaces(pattern, init);
      places := if Selected(pattern, last) then before + [|init|] else before;
      assert es == init + [last];
      OnePlaceMore(Chosen(pattern, init), Selected(pattern, last), before);
      OneNameMore(init, last, before, Listing(pattern, init), Selected(pattern, last));
      ListingNext(pattern, init, last);
    }
  }

  function Limit(maxEntries: int): (limit: int) {
    if maxEntries == 0 then 5000 else maxEntries
  }

  function Cut<T>(s: seq<T>, limit: int): seq<T> {
    if limit <= 0 then [] else if |s| <= limit then s else s[..limit]
  }

  /** For names without a literal `*` a member is selected exactly when its name matches. */
  lemma {:induction false} SelectedMeansAccepted(pattern: seq<byte>, e: Entry)
    requires STAR !in NameText(e.name)
    ensures Selected(pattern, e) <==> pattern == [] || Glob.Accepts(pattern, NameText(e.name))
  {
    Glob.ScanExactlyOnNamesWithoutStar(NameText(e.name));
  }

  /** A member listed under its name, blank padded to eight, is found again under that name. */
  lemma {:induction false} PaddedNameText(text: seq<byte>, padding: nat)
    requires BLANK !in text && NUL !in text
    ensures NameText(text + seq(padding, i => BLANK)) == text
  {
    if text != [] {
      var padded := text + seq(padding, i => BLANK);
      assert padded[1..] == text[1..] + seq(padding, i => BLANK);
      PaddedNameText(text[1..], padding);
    }
  }

  // ---------- the walk ----------

  lemma {:induction false} EntriesBytesSplit(es: seq<Entry>, k: nat)
    requires k <= |es|
    ensures EntriesBytes(es) == EntriesBytes(es[..k]) + EntriesBytes(es[k..])
  {
    if k == 0 {
      assert es[..0] == [] && es[0..] == es;
    } else {
      EntriesBytesSplit(es[1..], k - 1);
      assert es[..k][1..] == es[1..][..k - 1];
      assert es[1..][k - 1..] == es[k..];
      AppendAssoc(es[0].Bytes(), EntriesBytes(es[1..][..k - 1]), EntriesBytes(es[k..]));
    }
  }

  /** What is left of the payload once `k` entries have been read. */
  ghost function Rest(b: DirBlock, k: nat): seq<byte>
    requires k <= |b.entries|
  {
    EntriesBytes(b.entries[k..]) + EndingBytes(b.ending)
  }

  lemma {:induction false} PayloadAt(b: DirBlock, k: nat)
    requires WellFormed(b) && k <= |b.entries|
    ensures var pos := COUNT_SIZE + |EntriesBytes(b.entries[..k])|;
            && pos + |Rest(b, k)| + |b.filler| == BLOCK_SIZE
            && BlockBytes(b)[pos..pos + |Rest(b, k)|] == Rest(b, k)
            && |Payload(b)| == |EntriesBytes(b.entries[..k])| + |Rest(b, k)|
  {
    EntriesBytesSplit(b.entries, k);
    var done := EntriesBytes(b.entries[..k]);
    AppendAssoc(done, EntriesBytes(b.entries[k..]), EndingBytes(b.ending));
    assert Payload(b) == done + Rest(b, k);
  }

  /** One step of the walk: the entry at the current position, or the end of the directory. */
  lemma {:induction false} EntryAt(b: DirBlock, k: nat)
    requires WellFormed(b) && k < |b.entries|
    ensures Rest(b, k) == b.entries[k].Bytes() + Rest(b, k + 1)
    ensures EntriesBytes(b.entries[..k + 1]) == EntriesBytes(b.entries[..k]) + b.entries[k].Bytes()
    ensures Rest(b, k + 1) == [] <==> k + 1 == |b.entries| && b.ending == Open
    ensures Rest(b, k + 1) != [] ==> |Rest(b, k + 1)| >= ENTRY_SIZE
  {
    var es := b.entries;
    assert es[k..][1..] == es[k + 1..];
    AppendAssoc(es[k].Bytes(), EntriesBytes(es[k + 1..]), EndingBytes(b.ending));
    EntriesBytesSplit(es[..k + 1], k);
    assert es[..k + 1][..k] == es[..k] && es[..k + 1][k..] == [es[k]];
    assert EntriesBytes([es[k]]) == es[k].Bytes();
    if k + 1 < |es| {
      assert es[k + 1] in es;
      assert EntriesBytes(es[k + 1..]) == es[k + 1].Bytes() + EntriesBytes(es[k + 1..][1..]);
    }
  }

  /** Bytes of the payload taken up by the first `k` entries. */
  ghost function Done(b: DirBlock, k: nat): nat
    requires k <= |b.entries|
  {
    |EntriesBytes(b.entries[..k])|
  }

  /** What the walk sees at the current position, and where the next entry starts. */
  lemma {:induction false} Look(rec: seq<byte>, b: DirBlock, k: nat)
    requires WellFormed(b) && rec == BlockBytes(b) && k <= |b.entries| && Rest(b, k) != []
    ensures COUNT_SIZE + Done(b, k) + ENTRY_SIZE <= |rec|
    ensures var data := COUNT_SIZE + Done(b, k);
            if k == |b.entries| then rec[data..data + NAME_SIZE] == HighName()
            else
              && rec[data..data + NAME_SIZE] == b.entries[k].name != HighName()
              && rec[data + ENTRY_SIZE - 1] == b.entries[k].info
              && Done(b, k + 1) == Done(b, k) + ENTRY_SIZE + 2 * (b.entries[k].info % 32)
              && |Payload(b)| == Done(b, k + 1) + |Rest(b, k + 1)|
              && (Rest(b, k + 1) == [] ==> k + 1 == |b.entries|)
              && (Rest(b, k + 1) != [] ==> |Rest(b, k + 1)| >= ENTRY_SIZE)
  {
    PayloadAt(b, k);
    var data := COUNT_SIZE + Done(b, k);
    assert rec[data..data + |Rest(b, k)|] == Rest(b, k);
    if k == |b.entries| {
      assert b.entries[k..] == [] && Rest(b, k) == EndingBytes(b.ending);
      assert rec[data..data + NAME_SIZE] == Rest(b, k)[..NAME_SIZE] == HighName();
    } else {
      EntryAt(b, k);
      assert b.entries[k] in b.entries;
      ReadsEntry(rec, data, b.entries[k], Rest(b, k + 1));
      PayloadAt(b, k + 1);
    }
  }

  lemma {:induction false} PayloadCount(b: DirBlock)
    requires WellFormed(b)
    ensures var rec := BlockBytes(b); rec[0] as int * 256 + rec[1] as int == COUNT_SIZE + |Payload(b)|
    ensures Done(b, 0) == 0 && Rest(b, 0) == Payload(b) != []
  {
    assert b.entries[..0] == [] && b.entries[0..] == b.entries;
    if b.entries != [] {
      assert b.entries[0] in b.entries;
    }
  }

  ghost predicate Listed(pattern: seq<byte>, es: seq<Entry>, limit: int, members: seq<seq<byte>>, total: nat) {
    members == Listing(pattern, es) && total == |members| && (total == 0 || total <= limit)
  }

  /** Counts one entry and lists it, unless it is one too many. */
  method Consider(pattern: seq<byte>, text: seq<byte>, ghost es: seq<Entry>, ghost e: Entry, limit: int,
                  members0: seq<seq<byte>>, total0: nat)
    returns (members: seq<seq<byte>>, total: nat, full: bool)
    requires text == NameText(e.name) && Listed(pattern, es, limit, members0, total0)
    ensures full ==> Overflows(pattern, es + [e], limit, members)
    ensures !full ==> Listed(pattern, es + [e], limit, members, total)
  {
    members, total, full := members0, total0, false;
    assert (es + [e])[..|es|] == es;
    var matched := pattern == [];
    if !matched {
      matched := Glob.IsMatch(text, pattern);
    }
    if matched {
      total := total + 1;
      if total > limit {
        full := true;
        return;
      }
      members := members + [text];
    }
  }

  /** The same for the `k`-th entry of a block, of which the earlier ones are dealt with. */
  method ConsiderEntry(pattern: seq<byte>, name: seq<byte>, ghost before: seq<Entry>, ghost b: DirBlock, ghost k: nat,
                       limit: int, members0: seq<seq<byte>>, total0: nat)
    returns (members: seq<seq<byte>>, total: nat, full: bool)
    requires k < |b.entries| && name == b.entries[k].name
    requires Listed(pattern, before + b.entries[..k], limit, members0, total0)
    ensures full ==> Overflows(pattern, before + b.entries, limit, members)
    ensures !full ==> Listed(pattern, before + b.entries[..k + 1], limit, members, total)
  {
    members, total, full := Consider(pattern, NameText(name), before + b.entries[..k], b.entries[k],
                                     limit, members0, total0);
    assert before + b.entries[..k] + [b.entries[k]] == before + b.entries[..k + 1];
    if full {
      OverflowStays(pattern, before, b.entries, k + 1, limit, members);
    }
  }

  /** The name of the entry at `data`, and its length. */
  method ReadEntry(rec: seq<byte>, data: nat, ghost b: DirBlock, ghost k: nat) returns (name: seq<byte>, len: nat)
    requires WellFormed(b) && rec == BlockBytes(b) && k <= |b.entries| && Rest(b, k) != []
    requires data == COUNT_SIZE + Done(b, k)
    ensures name == HighName() <==> k == |b.entries|
    ensures k < |b.entries| ==>
              && name == b.entries[k].name && Done(b, k + 1) == Done(b, k) + len
              && |Payload(b)| == Done(b, k + 1) + |Rest(b, k + 1)|
              && (Rest(b, k + 1) == [] ==> k + 1 == |b.entries|)
              && (Rest(b, k + 1) != [] ==> |Rest(b, k + 1)| >= ENTRY_SIZE)
  {
    Look(rec, b, k);
    name := rec[data..data + NAME_SIZE];
    var info := rec[data + ENTRY_SIZE - 1] % 32;
    len := ENTRY_SIZE + info as int * 2;
  }

  /** Halfword count and entries of one block; stops early when the limit is passed. */
  method WalkBlock(rec: seq<byte>, ghost b: DirBlock, ghost before: seq<Entry>, pattern: seq<byte>,
                   limit: int, members0: seq<seq<byte>>, total0: nat)
    returns (members: seq<seq<byte>>, total: nat, full: bool)
    requires WellFormed(b) && rec == BlockBytes(b)
    requires Listed(pattern, before, limit, members0, total0)
    ensures full ==> Overflows(pattern, before + b.entries, limit, members)
    ensures !full ==> Listed(pattern, before + b.entries, limit, members, total)
  {
    members, total, full := members0, total0, false;
    var count := rec[0] as int * 256 + rec[1] as int;
    var data: nat := COUNT_SIZE;
    var i := 0;
    ghost var k := 0;
    PayloadCount(b);
    assert before + b.entries[..0] == before;
    while i < count
      invariant k <= |b.entries| && i == Done(b, k) && data == COUNT_SIZE + i
      invariant Rest(b, k) != [] && i < count
      invariant Listed(pattern, before + b.entries[..k], limit, members, total)
      decreases |b.entries| - k
    {
      var name, len := ReadEntry(rec, data, b, k);
      if name == HighName() {
        break;
      }
      members, total, full := ConsiderEntry(pattern, name, before, b, k, limit, members, total);
      if full {
        return;
      }
      data := data + len;
      var remainder := count - (i + len);
      i := i + len;
      k := k + 1;
      if remainder < ENTRY_SIZE {
        break;
      }
    }
    assert b.entries[..|b.entries|] == b.entries;
  }

  /** More members match than the limit allows, and `members` are the first of them. */
  ghost predicate Overflows(pattern: seq<byte>, es: seq<Entry>, limit: int, members: seq<seq<byte>>) {
    var all := Listing(pattern, es);
    all != [] && |all| > limit && members == Cut(all, limit)
  }

  lemma {:induction false} ReadsEntry(rec: seq<byte>, data: nat, e: Entry, more: seq<byte>)
    requires e.WellFormed() && data + |e.Bytes()| + |more| <= |rec|
    requires rec[data..data + |e.Bytes() + more|] == e.Bytes() + more
    ensures |e.Bytes()| == ENTRY_SIZE + 2 * (e.info % 32)
    ensures rec[data..data + NAME_SIZE] == e.name
    ensures rec[data + ENTRY_SIZE - 1] == e.info
  {
    var at := rec[data..data + |e.Bytes() + more|];
    assert at[..NAME_SIZE] == rec[data..data + NAME_SIZE];
    assert at[..NAME_SIZE] == e.name;
    assert at[ENTRY_SIZE - 1] == rec[data + ENTRY_SIZE - 1];
  }

  lemma {:induction false} OverflowStays(pattern: seq<byte>, before: seq<Entry>, es: seq<Entry>, k: nat, limit: int,
                      members: seq<seq<byte>>)
    requires k <= |es| && Overflows(pattern, before + es[..k], limit, members)
    ensures Overflows(pattern, before + es, limit, members)
  {
    assert before + es == before + es[..k] + es[k..];
    ListingPrefix(pattern, before + es[..k], es[k..]);
  }

  lemma {:induction false} ListingPrefix(pattern: seq<byte>, es: seq<Entry>, more: seq<Entry>)
    ensures Listing(pattern, es) <= Listing(pattern, es + more)
    decreases |more|
  {
    if more == [] {
      assert es + more == es;
    } else {
      var init := more[..|more| - 1];
      ListingPrefix(pattern, es, init);
      assert (es + more)[..|es + more| - 1] == es + init;
    }
  }

  /**
    * Lists a directory: the members of all blocks that match, in directory order, cut to the
    * limit, with the warning exactly when more matched.
    */
  method ListMembers(recs: seq<seq<byte>>, ghost dirs: seq<DirBlock>, pattern: seq<byte>, maxEntries: int)
    returns (rc: int, members: seq<seq<byte>>)
    requires |recs| == |dirs|
    requires forall i :: 0 <= i < |dirs| ==> WellFormed(dirs[i]) && recs[i] == BlockBytes(dirs[i])
    ensures members == Cut(Listing(pattern, AllEntries(dirs)), Limit(maxEntries))
    ensures rc == if Listing(pattern, AllEntries(dirs)) != [] && |Listing(pattern, AllEntries(dirs))| > Limit(maxEntries)
                  then 1 else 0
  {
    var limit := maxEntries;
    if limit == 0 {
      limit := DEFAULT_MAX_ENTRIES;
    }
    var total: nat := 0;
    members := [];
    for n := 0 to |recs|
      invariant Listed(pattern, AllEntries(dirs[..n]), limit, members, total)
    {
      assert dirs[..n + 1][..n] == dirs[..n];
      var full;
      members, total, full := WalkBlock(recs[n], dirs[n], AllEntries(dirs[..n]), pattern, limit, members, total);
      if full {
        OverflowOfAll(pattern, dirs, n + 1, limit, members);
        rc := WARNING;
        return;
      }
    }
    assert dirs[..|recs|] == dirs;
    rc := SUCCESS;
  }

  lemma {:induction false} OverflowOfAll(pattern: seq<byte>, dirs: seq<DirBlock>, n: nat, limit: int, members: seq<seq<byte>>)
    requires n <= |dirs| && Overflows(pattern, AllEntries(dirs[..n]), limit, members)
    ensures Overflows(pattern, AllEntries(dirs), limit, members)
  {
    EntriesPrefix(dirs, n);
    ListingPrefix(pattern, AllEntries(dirs[..n]), AllEntries(dirs)[|AllEntries(dirs[..n])|..]);
  }

  lemma {:induction false} EntriesPrefix(dirs: seq<DirBlock>, n: nat)
    requires n <= |dirs|
    ensures AllEntries(dirs[..n]) <= AllEntries(dirs)
    ensures AllEntries(dirs) == AllEntries(dirs[..n]) + AllEntries(dirs)[|AllEntries(dirs[..n])|..]
    decreases |dirs|
  {
    if n < |dirs| {
      EntriesPrefix(dirs[..|dirs| - 1], n);
      assert dirs[..|dirs| - 1][..n] == dirs[..n];
    } else {
      assert dirs[..n] == dirs;
    }
  }
}
