// Compiling instructions into the transaction format of the TukTuk task scheduler: one deduplicated account list,
// sorted by role, and instructions that refer to it by index.

module TukTukCompiler {
  import opened PrimeField
  import opened LittleEndian

  type Address = string

  datatype AccountRole = Readonly | Writable | ReadonlySigner | WritableSigner

  datatype AccountRef = AccountRef(address: Address, role: AccountRole)

  datatype Instruction = Instruction(programAddress: Address, accounts: Option<seq<AccountRef>>, data: Option<seq<byte>>) {
    function AccountList(): seq<AccountRef> {
      if accounts.Some? then accounts.value else []
    }

    function DataBytes(): seq<byte> {
      if data.Some? then data.value else []
    }
  }

  datatype Meta = Meta(address: Address, isSigner: bool, isWritable: bool)

  datatype CompiledInstruction = CompiledInstruction(programIdIndex: nat, accounts: seq<byte>, data: seq<byte>)

  datatype CompiledTransaction = CompiledTransaction(numRwSigners: nat, numRoSigners: nat, numRw: nat,
                                                     accounts: seq<Address>, instructions: seq<CompiledInstruction>)

  predicate IsSignerRole(role: AccountRole) {
    role.ReadonlySigner? || role.WritableSigner?
  }

  predicate IsWritableRole(role: AccountRole) {
    role.Writable? || role.WritableSigner?
  }

  // ----- collecting accounts in the order in which they are first seen

  function RefMeta(a: AccountRef): Meta {
    Meta(a.address, IsSignerRole(a.role), IsWritableRole(a.role))
  }

  function ProgramMeta(program: Address): Meta {
    Meta(program, false, false)
  }

  function RefMetas(refs: seq<AccountRef>): seq<Meta> {
    if refs == [] then [] else RefMetas(refs[..|refs| - 1]) + [RefMeta(refs[|refs| - 1])]
  }

  // Everything the instructions mention, in order; a program comes after its accounts and without privileges.
  function Mentions(instructions: seq<Instruction>): seq<Meta> {
    if instructions == [] then []
    else
      var n := |instructions| - 1;
      Mentions(instructions[..n]) + RefMetas(instructions[n].AccountList()) + [ProgramMeta(instructions[n].programAddress)]
  }

  function Addresses(ms: seq<Meta>): (addresses: seq<Address>)
    ensures |addresses| == |ms|
    ensures forall i :: 0 <= i < |ms| ==> addresses[i] == ms[i].address
  {
    seq(|ms|, i requires 0 <= i < |ms| => ms[i].address)
  }

  // Every mention whose address has not been mentioned before.
  function FirstSeen(ms: seq<Meta>): seq<Meta> {
    if ms == [] then []
    else
      var d, last := FirstSeen(ms[..|ms| - 1]), ms[|ms| - 1];
      if last.address in Addresses(d) then d else d + [last]
  }

  lemma FirstSeenSnoc(ms: seq<Meta>, m: Meta)
    ensures FirstSeen(ms + [m]) == if m.address in Addresses(FirstSeen(ms)) then FirstSeen(ms) else FirstSeen(ms) + [m]
  {
    assert (ms + [m])[..|ms|] == ms;
  }

  lemma AddressesSnoc(ms: seq<Meta>, m: Meta, a: Address)
    ensures a in Addresses(ms + [m]) <==> a in Addresses(ms) || a == m.address
  {
    assert Addresses(ms + [m]) == Addresses(ms) + [m.address];
  }

  lemma AddressOf(ms: seq<Meta>, m: Meta)
    requires m in ms
    ensures m.address in Addresses(ms)
  {
    var k :| 0 <= k < |ms| && ms[k] == m;
    assert Addresses(ms)[k] == m.address;
  }

  predicate NoDuplicates(addresses: seq<Address>) {
    forall i, j :: 0 <= i < j < |addresses| ==> addresses[i] != addresses[j]
  }

  // The list of first mentions has no duplicates and the addresses of the list it is taken from.
  lemma {:induction false} FirstSeenAddresses(ms: seq<Meta>)
    ensures NoDuplicates(Addresses(FirstSeen(ms)))
    ensures forall a :: a in Addresses(FirstSeen(ms)) <==> a in Addresses(ms)
  {
    if ms != [] {
      var n := |ms| - 1;
      var prefix, last := ms[..n], ms[n];
      assert ms == prefix + [last];
      FirstSeenAddresses(prefix);
      FirstSeenSnoc(prefix, last);
      var d := FirstSeen(prefix);
      assert Addresses(d + [last]) == Addresses(d) + [last.address];
      assert Addresses(prefix + [last]) == Addresses(prefix) + [last.address];
    }
  }

  ghost predicate IsFirstMention(ms: seq<Meta>, d: Meta) {
    exists k :: 0 <= k < |ms| && ms[k] == d && d.address !in Addresses(ms[..k])
  }

  // It keeps the flags of the first mention of every address.
  lemma {:induction false} FirstSeenKeepsFirst(ms: seq<Meta>, d: Meta)
    requires d in FirstSeen(ms)
    ensures IsFirstMention(ms, d)
  {
    var n := |ms| - 1;
    var prefix, last := ms[..n], ms[n];
    assert ms == prefix + [last];
    FirstSeenSnoc(prefix, last);
    if d in FirstSeen(prefix) {
      FirstSeenKeepsFirst(prefix, d);
      var k :| 0 <= k < |prefix| && prefix[k] == d && d.address !in Addresses(prefix[..k]);
      assert ms[k] == d && ms[..k] == prefix[..k];
    } else {
      FirstSeenAddresses(prefix);
      assert ms[n] == d && ms[..n] == prefix;
    }
  }

  // Visiting one mention: remember its address, and keep it when the address is new.
  method Visit(accountSet: set<Address>, accountMetas: seq<Meta>, m: Meta, ghost ms: seq<Meta>)
      returns (newSet: set<Address>, newMetas: seq<Meta>)
    requires accountMetas == FirstSeen(ms) && forall a :: a in accountSet <==> a in Addresses(accountMetas)
    ensures newMetas == FirstSeen(ms + [m]) && forall a :: a in newSet <==> a in Addresses(newMetas)
  {
    FirstSeenSnoc(ms, m);
    newSet, newMetas := accountSet, accountMetas;
    if m.address !in accountSet {
      newSet := newSet + {m.address};
      newMetas := newMetas + [m];
      forall a ensures a in newSet <==> a in Addresses(newMetas) {
        AddressesSnoc(accountMetas, m, a);
      }
    }
  }

  // Visiting everything one instruction mentions.
  method VisitInstruction(oldSet: set<Address>, oldMetas: seq<Meta>, ix: Instruction, ghost before: seq<Meta>)
      returns (accountSet: set<Address>, accountMetas: seq<Meta>)
    requires oldMetas == FirstSeen(before) && forall a :: a in oldSet <==> a in Addresses(oldMetas)
    ensures accountMetas == FirstSeen(before + RefMetas(ix.AccountList()) + [ProgramMeta(ix.programAddress)])
    ensures forall a :: a in accountSet <==> a in Addresses(accountMetas)
  {
    hide FirstSeen, Addresses;
    accountSet, accountMetas := oldSet, oldMetas;
    var refs := ix.AccountList();
    assert before + RefMetas(refs[..0]) == before;
    for k := 0 to |refs|
      invariant accountMetas == FirstSeen(before + RefMetas(refs[..k]))
      invariant forall a :: a in accountSet <==> a in Addresses(accountMetas)
    {
      ghost var ms := before + RefMetas(refs[..k]);
      assert refs[..k + 1][..k] == refs[..k];
      assert before + RefMetas(refs[..k + 1]) == ms + [RefMeta(refs[k])];
      accountSet, accountMetas := Visit(accountSet, accountMetas, RefMeta(refs[k]), ms);
    }
    assert refs[..|refs|] == refs;
    accountSet, accountMetas := Visit(accountSet, accountMetas, ProgramMeta(ix.programAddress), before + RefMetas(refs));
  }

  method CollectMetas(instructions: seq<Instruction>) returns (accountMetas: seq<Meta>)
    ensures accountMetas == FirstSeen(Mentions(instructions))
  {
    hide FirstSeen, Addresses, RefMetas;
    var accountSet: set<Address> := {};
    accountMetas := [];
    assert FirstSeen([]) == [] && Addresses([]) == [] by { EmptyLists(); }
    for i := 0 to |instructions|
      invariant accountMetas == FirstSeen(Mentions(instructions[..i]))
      invariant forall a :: a in accountSet <==> a in Addresses(accountMetas)
    {
      assert instructions[..i + 1][..i] == instructions[..i];
      accountSet, accountMetas := VisitInstruction(accountSet, accountMetas, instructions[i], Mentions(instructions[..i]));
    }
    assert instructions[..|instructions|] == instructions;
  }

  lemma EmptyLists()
    ensures FirstSeen([]) == [] && Addresses([]) == []
  {
  }

  // ----- the stable sort

  // The comparator: signers first, then writable accounts.
  function Compare(a: Meta, b: Meta): int {
    if a.isSigner != b.isSigner then (if b.isSigner then 1 else -1)
    else if a.isWritable != b.isWritable then (if b.isWritable then 1 else -1)
    else 0
  }

  // A stable sort by the comparator: insert each element behind everything that does not compare greater.
  function Insert(sorted: seq<Meta>, m: Meta): seq<Meta> {
    if sorted == [] then [m]
    else
      var n := |sorted| - 1;
      if Compare(sorted[n], m) <= 0 then sorted + [m] else Insert(sorted[..n], m) + [sorted[n]]
  }

  function StableSort(ms: seq<Meta>): seq<Meta> {
    if ms == [] then [] else Insert(StableSort(ms[..|ms| - 1]), ms[|ms| - 1])
  }

  // The four sections of the header, in order.
  function Rank(m: Meta): (rank: nat)
    ensures rank < 4
  {
    if m.isSigner then (if m.isWritable then 0 else 1) else (if m.isWritable then 2 else 3)
  }

  lemma CompareIsRank(a: Meta, b: Meta)
    ensures Compare(a, b) <= 0 <==> Rank(a) <= Rank(b)
  {
  }

  function Filter(ms: seq<Meta>, keep: Meta -> bool): seq<Meta> {
    if ms == [] then []
    else Filter(ms[..|ms| - 1], keep) + (if keep(ms[|ms| - 1]) then [ms[|ms| - 1]] else [])
  }

  // One section: the metas of one rank, in their order.
  function Section(ms: seq<Meta>, rank: nat): seq<Meta> {
    Filter(ms, m => Rank(m) == rank)
  }

  function Sections(ms: seq<Meta>): seq<Meta> {
    Section(ms, 0) + Section(ms, 1) + Section(ms, 2) + Section(ms, 3)
  }

  predicate SortedByRank(ms: seq<Meta>) {
    forall i, j :: 0 <= i < j < |ms| ==> Rank(ms[i]) <= Rank(ms[j])
  }

  lemma SectionSnoc(ms: seq<Meta>, m: Meta, rank: nat)
    ensures Section(ms + [m], rank) == if Rank(m) == rank then Section(ms, rank) + [m] else Section(ms, rank)
  {
    assert (ms + [m])[..|ms|] == ms;
  }

  // Filters that agree on every meta keep the same list.
  lemma {:induction false} FilterIsSection(ms: seq<Meta>, keep: Meta -> bool, rank: nat)
    requires forall m :: keep(m) <==> Rank(m) == rank
    ensures Filter(ms, keep) == Section(ms, rank)
  {
    if ms != [] {
      FilterIsSection(ms[..|ms| - 1], keep, rank);
    }
  }

  lemma {:induction false} InsertPermutes(sorted: seq<Meta>, m: Meta)
    ensures multiset(Insert(sorted, m)) == multiset(sorted) + multiset{m}
  {
    if sorted != [] {
      var n := |sorted| - 1;
      assert sorted == sorted[..n] + [sorted[n]];
      InsertPermutes(sorted[..n], m);
    }
  }

  lemma {:induction false} SortPermutes(ms: seq<Meta>)
    ensures multiset(StableSort(ms)) == multiset(ms) && |StableSort(ms)| == |ms|
  {
    if ms != [] {
      var n := |ms| - 1;
      assert ms == ms[..n] + [ms[n]];
      SortPermutes(ms[..n]);
      InsertPermutes(StableSort(ms[..n]), ms[n]);
    }
    assert |multiset(StableSort(ms))| == |multiset(ms)|;
  }

  lemma SortedSnoc(front: seq<Meta>, last: Meta)
    ensures SortedByRank(front + [last]) <==> SortedByRank(front) && forall x :: x in front ==> Rank(x) <= Rank(last)
  {
    hide Rank;
    var all := front + [last];
    if SortedByRank(all) {
      forall i | 0 <= i < |front|
        ensures Rank(front[i]) <= Rank(last)
      {
        assert Rank(all[i]) <= Rank(all[|front|]);
      }
      assert forall i, j :: 0 <= i < j < |front| ==> Rank(front[i]) == Rank(all[i]) && Rank(front[j]) == Rank(all[j]);
    }
  }

  lemma InsertMembers(sorted: seq<Meta>, m: Meta, x: Meta)
    requires x in Insert(sorted, m)
    ensures x in sorted || x == m
  {
    InsertPermutes(sorted, m);
    assert x in multiset(Insert(sorted, m));
  }

  lemma {:induction false} InsertSorted(sorted: seq<Meta>, m: Meta)
    requires SortedByRank(sorted)
    ensures SortedByRank(Insert(sorted, m))
  {
    hide SortedByRank, Rank, Compare;
    if sorted == [] {
      SingleSorted(m);
    } else {
      var n := |sorted| - 1;
      var front, last := sorted[..n], sorted[n];
      assert sorted == front + [last];
      CompareIsRank(last, m);
      SortedSnoc(front, last);
      SortedSnoc(sorted, m);
      if Compare(last, m) > 0 {
        InsertSorted(front, m);
        forall x | x in Insert(front, m)
          ensures Rank(x) <= Rank(last)
        {
          InsertMembers(front, m, x);
        }
        SortedSnoc(Insert(front, m), last);
      }
    }
  }

  lemma SingleSorted(m: Meta)
    ensures SortedByRank([m])
  {
  }

  // The new element goes last in its own section and touches no other.
  lemma {:induction false} InsertSection(sorted: seq<Meta>, m: Meta, rank: nat)
    ensures Section(Insert(sorted, m), rank) == Section(sorted + [m], rank)
  {
    hide Filter, Section, Compare;
    if sorted == [] {
      assert sorted + [m] == [m];
    } else {
      var n := |sorted| - 1;
      CompareIsRank(sorted[n], m);
      if Compare(sorted[n], m) > 0 {
        InsertSection(sorted[..n], m, rank);
        assert sorted == sorted[..n] + [sorted[n]];
        SectionSnoc(Insert(sorted[..n], m), sorted[n], rank);
        SectionSnoc(sorted[..n], m, rank);
        SectionSnoc(sorted[..n], sorted[n], rank);
        SectionSnoc(sorted, m, rank);
      }
    }
  }

  lemma {:induction false} SortIsSorted(ms: seq<Meta>)
    ensures SortedByRank(StableSort(ms))
  {
    if ms != [] {
      SortIsSorted(ms[..|ms| - 1]);
      InsertSorted(StableSort(ms[..|ms| - 1]), ms[|ms| - 1]);
    }
  }

  lemma {:induction false} SortKeepsSections(ms: seq<Meta>, rank: nat)
    ensures Section(StableSort(ms), rank) == Section(ms, rank)
  {
    if ms != [] {
      hide Filter, Section, Insert;
      var n := |ms| - 1;
      assert ms == ms[..n] + [ms[n]];
      SortKeepsSections(ms[..n], rank);
      InsertSection(StableSort(ms[..n]), ms[n], rank);
      SectionSnoc(StableSort(ms[..n]), ms[n], rank);
      SectionSnoc(ms[..n], ms[n], rank);
    }
  }

  // Past the rank of the last element a sorted list has nothing.
  lemma {:induction false} SectionEmpty(ms: seq<Meta>, rank: nat)
    requires forall i :: 0 <= i < |ms| ==> Rank(ms[i]) < rank
    ensures Section(ms, rank) == []
  {
    if ms != [] {
      assert ms == ms[..|ms| - 1] + [ms[|ms| - 1]];
      SectionSnoc(ms[..|ms| - 1], ms[|ms| - 1], rank);
      SectionEmpty(ms[..|ms| - 1], rank);
    }
  }

  // A new last element of the highest rank extends the last section that is not empty.
  lemma SectionsSnoc(front: seq<Meta>, last: Meta)
    requires forall x :: x in front ==> Rank(x) <= Rank(last)
    ensures Sections(front + [last]) == Sections(front) + [last]
  {
    hide Filter, Section;
    forall rank: nat | Rank(last) < rank
      ensures Section(front, rank) == []
    {
      SectionEmpty(front, rank);
    }
    SectionSnoc(front, last, 0);
    SectionSnoc(front, last, 1);
    SectionSnoc(front, last, 2);
    SectionSnoc(front, last, 3);
  }

  lemma NoSections()
    ensures Sections([]) == []
  {
    SectionEmpty([], 0);
    SectionEmpty([], 1);
    SectionEmpty([], 2);
    SectionEmpty([], 3);
  }

  // A list in rank order is the concatenation of its sections.
  lemma {:induction false} SortedIsSections(ms: seq<Meta>)
    requires SortedByRank(ms)
    ensures ms == Sections(ms)
  {
    hide Sections, SortedByRank, Rank;
    if ms == [] {
      NoSections();
    } else {
      var front, last := ms[..|ms| - 1], ms[|ms| - 1];
      assert ms == front + [last];
      SortedSnoc(front, last);
      SortedIsSections(front);
      SectionsSnoc(front, last);
    }
  }

  // Whatever stable sort is used the result is the same: in order, with every section as it was.
  lemma StableSortUnique(ms: seq<Meta>, ys: seq<Meta>)
    ensures (SortedByRank(ys) && forall rank: nat :: rank < 4 ==> Section(ys, rank) == Section(ms, rank))
            <==> ys == StableSort(ms)
  {
    hide Filter, Section, StableSort, SortedByRank;
    forall rank: nat | rank < 4
      ensures Section(StableSort(ms), rank) == Section(ms, rank)
    {
      SortKeepsSections(ms, rank);
    }
    SortIsSorted(ms);
    SortedIsSections(StableSort(ms));
    if SortedByRank(ys) {
      SortedIsSections(ys);
    }
  }

  lemma SortIsSections(ms: seq<Meta>)
    ensures StableSort(ms) == Sections(ms)
  {
    hide Filter, Section, StableSort, SortedByRank;
    SortIsSorted(ms);
    SortedIsSections(StableSort(ms));
    SortKeepsSections(ms, 0);
    SortKeepsSections(ms, 1);
    SortKeepsSections(ms, 2);
    SortKeepsSections(ms, 3);
  }

  // ----- the compiled transaction

  // The map from addresses to indices, built from the pairs in order.
  function AccountMap(accounts: seq<Address>): (indices: map<Address, nat>)
    ensures forall a :: a in indices <==> a in accounts
    ensures forall a :: a in indices ==> indices[a] < |accounts| && accounts[indices[a]] == a
  {
    if accounts == [] then map[]
    else
      var n := |accounts| - 1;
      assert accounts == accounts[..n] + [accounts[n]];
      AccountMap(accounts[..n])[accounts[n] := n]
  }

  // Buffer.from keeps the low byte of every index.
  function ByteIndices(refs: seq<AccountRef>, accountMap: map<Address, nat>): (bytes: seq<byte>)
    requires forall r :: r in refs ==> r.address in accountMap
    ensures |bytes| == |refs|
    ensures forall k :: 0 <= k < |refs| ==> bytes[k] == accountMap[refs[k].address] % 256
  {
    seq(|refs|, k requires 0 <= k < |refs| => accountMap[refs[k].address] % 256)
  }

  predicate Covers(accountMap: map<Address, nat>, ix: Instruction) {
    ix.programAddress in accountMap && forall r :: r in ix.AccountList() ==> r.address in accountMap
  }

  function CompileInstruction(ix: Instruction, accountMap: map<Address, nat>): CompiledInstruction
    requires Covers(accountMap, ix)
  {
    CompiledInstruction(accountMap[ix.programAddress], ByteIndices(ix.AccountList(), accountMap), ix.DataBytes())
  }

  function SortedMetas(instructions: seq<Instruction>): seq<Meta> {
    StableSort(FirstSeen(Mentions(instructions)))
  }

  lemma {:induction false} RefsMentioned(refs: seq<AccountRef>, r: AccountRef)
    requires r in refs
    ensures RefMeta(r) in RefMetas(refs)
  {
    var n := |refs| - 1;
    if r != refs[n] {
      assert refs == refs[..n] + [refs[n]];
      RefsMentioned(refs[..n], r);
    }
  }

  lemma {:induction false} EverythingMentioned(instructions: seq<Instruction>, i: nat)
    requires i < |instructions|
    ensures ProgramMeta(instructions[i].programAddress) in Mentions(instructions)
    ensures forall r :: r in instructions[i].AccountList() ==> RefMeta(r) in Mentions(instructions)
  {
    var n := |instructions| - 1;
    if i < n {
      EverythingMentioned(instructions[..n], i);
    } else {
      forall r | r in instructions[i].AccountList()
        ensures RefMeta(r) in Mentions(instructions)
      {
        RefsMentioned(instructions[i].AccountList(), r);
      }
    }
  }

  lemma SortedAddresses(instructions: seq<Instruction>, a: Address)
    ensures a in Addresses(SortedMetas(instructions)) <==> a in Addresses(Mentions(instructions))
  {
    var d := FirstSeen(Mentions(instructions));
    FirstSeenAddresses(Mentions(instructions));
    SortPermutes(d);
    SamePermutedAddresses(d, StableSort(d), a);
  }

  lemma SamePermutedAddresses(ms: seq<Meta>, ys: seq<Meta>, a: Address)
    requires multiset(ms) == multiset(ys)
    ensures a in Addresses(ms) <==> a in Addresses(ys)
  {
    if a in Addresses(ms) {
      var k :| 0 <= k < |ms| && ms[k].address == a;
      assert ms[k] in multiset(ms);
      AddressOf(ys, ms[k]);
    }
    if a in Addresses(ys) {
      var k :| 0 <= k < |ys| && ys[k].address == a;
      assert ys[k] in multiset(ys);
      AddressOf(ms, ys[k]);
    }
  }

  lemma AllCovered(instructions: seq<Instruction>, i: nat)
    requires i < |instructions|
    ensures Covers(AccountMap(Addresses(SortedMetas(instructions))), instructions[i])
  {
    hide FirstSeen, StableSort, SortedMetas, AccountMap, Mentions;
    var ix := instructions[i];
    EverythingMentioned(instructions, i);
    AddressOf(Mentions(instructions), ProgramMeta(ix.programAddress));
    SortedAddresses(instructions, ix.programAddress);
    forall r | r in ix.AccountList()
      ensures r.address in AccountMap(Addresses(SortedMetas(instructions)))
    {
      AddressOf(Mentions(instructions), RefMeta(r));
      SortedAddresses(instructions, r.address);
    }
  }

  function CompiledInstructions(instructions: seq<Instruction>, accountMap: map<Address, nat>): (cs: seq<CompiledInstruction>)
    requires forall i :: 0 <= i < |instructions| ==> Covers(accountMap, instructions[i])
    ensures |cs| == |instructions|
    ensures forall i :: 0 <= i < |cs| ==> cs[i] == CompileInstruction(instructions[i], accountMap)
  {
    seq(|instructions|, i requires 0 <= i < |instructions| => CompileInstruction(instructions[i], accountMap))
  }

  function Compiled(instructions: seq<Instruction>): CompiledTransaction {
    var ms := SortedMetas(instructions);
    var accountMap := AccountMap(Addresses(ms));
    assert forall i :: 0 <= i < |instructions| ==> Covers(accountMap, instructions[i]) by {
      forall i | 0 <= i < |instructions|
        ensures Covers(accountMap, instructions[i])
      {
        AllCovered(instructions, i);
      }
    }
    CompiledTransaction(|Section(ms, 0)|, |Section(ms, 1)|, |Section(ms, 2)|, Addresses(ms),
                        CompiledInstructions(instructions, accountMap))
  }

  method Compile(instructions: seq<Instruction>) returns (tx: CompiledTransaction)
    ensures tx == Compiled(instructions)
  {
    hide FirstSeen, StableSort, Filter, Section, AccountMap, Mentions, Addresses;
    var accountMetas := CollectMetas(instructions);
    accountMetas := StableSort(accountMetas);
    var accounts := Addresses(accountMetas);
    var accountMap := AccountMap(accounts);
    var rwSigner := (m: Meta) => m.isSigner && m.isWritable;
    var roSigner := (m: Meta) => m.isSigner && !m.isWritable;
    var rw := (m: Meta) => !m.isSigner && m.isWritable;
    FilterIsSection(accountMetas, rwSigner, 0);
    FilterIsSection(accountMetas, roSigner, 1);
    FilterIsSection(accountMetas, rw, 2);
    var numRwSigners := |Filter(accountMetas, rwSigner)|;
    var numRoSigners := |Filter(accountMetas, roSigner)|;
    var numRw := |Filter(accountMetas, rw)|;
    forall i | 0 <= i < |instructions|
      ensures Covers(accountMap, instructions[i])
    {
      AllCovered(instructions, i);
    }
    var compiledInstructions: seq<CompiledInstruction> := [];
    for i := 0 to |instructions|
      invariant compiledInstructions == CompiledInstructions(instructions, accountMap)[..i]
    {
      compiledInstructions := compiledInstructions + [CompileInstruction(instructions[i], accountMap)];
    }
    tx := CompiledTransaction(numRwSigners, numRoSigners, numRw, accounts, compiledInstructions);
  }
}
