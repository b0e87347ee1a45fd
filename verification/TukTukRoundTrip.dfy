// What a compiled task transaction means: reading it back recovers the instructions, exactly when account indices fit
// in a byte and no account is mentioned again with other privileges.

module TukTukRoundTrip {
  import opened PrimeField
  import opened LittleEndian
  import opened TukTukCompiler

  // ----- the account list

  function AddressSet(addresses: seq<Address>): set<Address> {
    set a | a in addresses
  }

  lemma {:induction false} DistinctCount(addresses: seq<Address>)
    ensures |AddressSet(addresses)| <= |addresses|
    ensures NoDuplicates(addresses) <==> |AddressSet(addresses)| == |addresses|
  {
    if addresses != [] {
      var n := |addresses| - 1;
      var prefix, last := addresses[..n], addresses[n];
      DistinctCount(prefix);
      assert addresses == prefix + [last];
      assert AddressSet(addresses) == AddressSet(prefix) + {last};
      if last in prefix {
        assert AddressSet(addresses) == AddressSet(prefix);
      }
    } else {
      assert AddressSet(addresses) == {};
    }
  }

  // Every address that is mentioned is listed exactly once, and nothing else is.
  lemma AccountsExact(instructions: seq<Instruction>)
    ensures NoDuplicates(Compiled(instructions).accounts)
    ensures forall a :: a in Compiled(instructions).accounts <==> a in Addresses(Mentions(instructions))
    ensures |Compiled(instructions).accounts| == |AddressSet(Addresses(Mentions(instructions)))|
  {
    hide StableSort, FirstSeen, Mentions, Section;
    var ms := Mentions(instructions);
    var d, accounts := FirstSeen(ms), Addresses(SortedMetas(instructions));
    FirstSeenAddresses(ms);
    SortPermutes(d);
    forall a
      ensures a in accounts <==> a in Addresses(ms)
    {
      SortedAddresses(instructions, a);
    }
    assert AddressSet(accounts) == AddressSet(Addresses(d)) == AddressSet(Addresses(ms));
    DistinctCount(Addresses(d));
    DistinctCount(accounts);
  }

  lemma {:induction false} SectionMembers(ms: seq<Meta>, rank: nat)
    ensures forall x :: x in Section(ms, rank) <==> x in ms && Rank(x) == rank
  {
    if ms != [] {
      var n := |ms| - 1;
      assert ms == ms[..n] + [ms[n]];
      SectionMembers(ms[..n], rank);
      SectionSnoc(ms[..n], ms[n], rank);
    }
  }

  // The first three counts and the length of the list delimit four sections, each the first-seen accounts of one
  // role in the order in which they were seen.
  lemma CountsDelimitSections(instructions: seq<Instruction>)
    ensures var tx, d := Compiled(instructions), FirstSeen(Mentions(instructions));
            var s1 := tx.numRwSigners; var s2 := s1 + tx.numRoSigners; var s3 := s2 + tx.numRw;
            && s3 <= |tx.accounts|
            && tx.accounts[..s1] == Addresses(Section(d, 0))
            && tx.accounts[s1..s2] == Addresses(Section(d, 1))
            && tx.accounts[s2..s3] == Addresses(Section(d, 2))
            && tx.accounts[s3..] == Addresses(Section(d, 3))
  {
    hide StableSort, FirstSeen, Mentions, Section;
    var d := FirstSeen(Mentions(instructions));
    SortIsSections(d);
    SortKeepsSections(d, 0);
    SortKeepsSections(d, 1);
    SortKeepsSections(d, 2);
  }

  // The role a reader of the transaction gives to the account at one position.
  function RoleAt(tx: CompiledTransaction, k: nat): AccountRole {
    if k < tx.numRwSigners then WritableSigner
    else if k < tx.numRwSigners + tx.numRoSigners then ReadonlySigner
    else if k < tx.numRwSigners + tx.numRoSigners + tx.numRw then Writable
    else Readonly
  }

  lemma RoleIsMeta(instructions: seq<Instruction>, k: nat)
    requires k < |Compiled(instructions).accounts|
    ensures SortedMetas(instructions)[k]
            == RefMeta(AccountRef(Compiled(instructions).accounts[k], RoleAt(Compiled(instructions), k)))
  {
    hide StableSort, FirstSeen, Mentions, Section;
    var d := FirstSeen(Mentions(instructions));
    var ms := SortedMetas(instructions);
    SortIsSections(d);
    SortKeepsSections(d, 0);
    SortKeepsSections(d, 1);
    SortKeepsSections(d, 2);
    var s1 := |Section(d, 0)|;
    var s2 := s1 + |Section(d, 1)|;
    var s3 := s2 + |Section(d, 2)|;
    if k < s1 {
      SectionMembers(d, 0);
      assert ms[k] == Section(d, 0)[k] && Section(d, 0)[k] in Section(d, 0);
    } else if k < s2 {
      SectionMembers(d, 1);
      assert ms[k] == Section(d, 1)[k - s1] && Section(d, 1)[k - s1] in Section(d, 1);
    } else if k < s3 {
      SectionMembers(d, 2);
      assert ms[k] == Section(d, 2)[k - s2] && Section(d, 2)[k - s2] in Section(d, 2);
    } else {
      SectionMembers(d, 3);
      assert ms[k] == Section(d, 3)[k - s3] && Section(d, 3)[k - s3] in Section(d, 3);
    }
  }

  // Position alone tells the privileges under which the account was first mentioned.
  lemma PositionTellsFirstRole(instructions: seq<Instruction>, k: nat)
    requires k < |Compiled(instructions).accounts|
    ensures IsFirstMention(Mentions(instructions),
                           RefMeta(AccountRef(Compiled(instructions).accounts[k], RoleAt(Compiled(instructions), k))))
  {
    hide StableSort, FirstSeen, Mentions, Section;
    RoleIsMeta(instructions, k);
    var d := FirstSeen(Mentions(instructions));
    SortPermutes(d);
    assert StableSort(d)[k] in multiset(StableSort(d));
    FirstSeenKeepsFirst(Mentions(instructions), StableSort(d)[k]);
  }

  lemma SeenBefore(ms: seq<Meta>, i: nat, j: nat)
    requires i < j <= |ms|
    ensures ms[i].address in Addresses(ms[..j])
  {
    assert Addresses(ms[..j])[i] == ms[i].address;
  }

  lemma FirstMentionUnique(ms: seq<Meta>, a: Meta, b: Meta)
    requires IsFirstMention(ms, a) && IsFirstMention(ms, b) && a.address == b.address
    ensures a == b
  {
    forall i: nat, j: nat | i < j <= |ms|
      ensures ms[i].address in Addresses(ms[..j])
    {
      SeenBefore(ms, i, j);
    }
  }

  // ----- reading a transaction back

  predicate WellFormed(tx: CompiledTransaction) {
    forall c :: c in tx.instructions ==> InRange(c, |tx.accounts|)
  }

  predicate InRange(c: CompiledInstruction, n: nat) {
    c.programIdIndex < n && forall k :: 0 <= k < |c.accounts| ==> c.accounts[k] < n
  }

  function DecompileRefs(tx: CompiledTransaction, indices: seq<byte>): (refs: seq<AccountRef>)
    requires forall k :: 0 <= k < |indices| ==> indices[k] < |tx.accounts|
    ensures |refs| == |indices|
    ensures forall k :: 0 <= k < |refs| ==> refs[k] == AccountRef(tx.accounts[indices[k]], RoleAt(tx, indices[k]))
  {
    seq(|indices|, k requires 0 <= k < |indices| => AccountRef(tx.accounts[indices[k]], RoleAt(tx, indices[k])))
  }

  function DecompileInstruction(tx: CompiledTransaction, c: CompiledInstruction): Instruction
    requires InRange(c, |tx.accounts|)
  {
    Instruction(tx.accounts[c.programIdIndex], Some(DecompileRefs(tx, c.accounts)), Some(c.data))
  }

  function Decompile(tx: CompiledTransaction): (instructions: seq<Instruction>)
    requires WellFormed(tx)
    ensures |instructions| == |tx.instructions|
    ensures forall i :: 0 <= i < |instructions| ==> instructions[i] == DecompileInstruction(tx, tx.instructions[i])
  {
    seq(|tx.instructions|, i requires 0 <= i < |tx.instructions| => DecompileInstruction(tx, tx.instructions[i]))
  }

  // An instruction without optional parts: missing accounts and data read as empty.
  function Plain(ix: Instruction): Instruction {
    Instruction(ix.programAddress, Some(ix.AccountList()), Some(ix.DataBytes()))
  }

  // The same program, accounts and data, whatever the roles.
  predicate SameUpToRoles(a: Instruction, b: Instruction) {
    && a.programAddress == b.programAddress && a.DataBytes() == b.DataBytes()
    && |a.AccountList()| == |b.AccountList()|
    && forall k :: 0 <= k < |a.AccountList()| ==> a.AccountList()[k].address == b.AccountList()[k].address
  }

  function Index(instructions: seq<Instruction>, a: Address): nat
    requires a in Compiled(instructions).accounts
  {
    AccountMap(Compiled(instructions).accounts)[a]
  }

  lemma Referenced(instructions: seq<Instruction>, i: nat, k: nat)
    requires i < |instructions| && k < |instructions[i].AccountList()|
    ensures instructions[i].AccountList()[k].address in Compiled(instructions).accounts
  {
    AllCovered(instructions, i);
    assert instructions[i].AccountList()[k] in instructions[i].AccountList();
  }

  // The mentions of lower rank.
  function Lower(ms: seq<Meta>, rank: nat): seq<Meta> {
    Filter(ms, m => Rank(m) < rank)
  }

  // How many entries of the list come before entry j in the order of the header: those of a lower rank, and the
  // earlier ones of the same rank.
  function Place(ms: seq<Meta>, j: nat): nat
    requires j < |ms|
  {
    |Lower(ms, Rank(ms[j]))| + |Section(ms[..j], Rank(ms[j]))|
  }

  // Fewer than 256 first-seen accounts come before the one that is passed.
  ghost predicate IndexFits(instructions: seq<Instruction>, i: nat, k: nat)
    requires i < |instructions| && k < |instructions[i].AccountList()|
  {
    var d := FirstSeen(Mentions(instructions));
    forall j :: 0 <= j < |d| && d[j].address == instructions[i].AccountList()[k].address ==> Place(d, j) < 256
  }

  ghost predicate IndicesFit(instructions: seq<Instruction>) {
    forall i, k :: 0 <= i < |instructions| && 0 <= k < |instructions[i].AccountList()| ==> IndexFits(instructions, i, k)
  }

  // Every account is passed with the privileges of its first mention.
  ghost predicate RolesAgree(instructions: seq<Instruction>) {
    forall i, k :: 0 <= i < |instructions| && 0 <= k < |instructions[i].AccountList()| ==>
      IsFirstMention(Mentions(instructions), RefMeta(instructions[i].AccountList()[k]))
  }

  lemma CompiledAt(instructions: seq<Instruction>, i: nat)
    requires i < |instructions|
    ensures var tx := Compiled(instructions);
            && |tx.instructions| == |instructions|
            && Covers(AccountMap(tx.accounts), instructions[i])
            && tx.instructions[i] == CompileInstruction(instructions[i], AccountMap(tx.accounts))
  {
    hide StableSort, FirstSeen, Mentions, Section, SortedMetas, AccountMap;
    AllCovered(instructions, i);
  }

  lemma CompiledInRange(ix: Instruction, accounts: seq<Address>)
    requires Covers(AccountMap(accounts), ix)
    ensures InRange(CompileInstruction(ix, AccountMap(accounts)), |accounts|)
  {
    hide AccountMap;
    var accountMap := AccountMap(accounts);
    forall r | r in ix.AccountList()
      ensures accountMap[r.address] % 256 < |accounts|
    {
      LowByte(accountMap[r.address]);
    }
  }

  lemma LowByte(n: nat)
    ensures n % 256 <= n
  {
  }

  lemma CompiledIsWellFormed(instructions: seq<Instruction>)
    ensures WellFormed(Compiled(instructions))
  {
    hide Compiled, CompileInstruction, InRange, AccountMap;
    var tx := Compiled(instructions);
    if |instructions| > 0 { CompiledAt(instructions, 0); } else { NothingCompiled(); }
    forall i | 0 <= i < |tx.instructions|
      ensures InRange(tx.instructions[i], |tx.accounts|)
    {
      CompiledAt(instructions, i);
      CompiledInRange(instructions[i], tx.accounts);
    }
  }

  lemma NothingCompiled()
    ensures Compiled([]).instructions == []
  {
  }

  function ReadBack(instructions: seq<Instruction>): (result: seq<Instruction>)
    ensures |result| == |instructions|
  {
    CompiledIsWellFormed(instructions);
    Decompile(Compiled(instructions))
  }

  lemma CompiledRef(instructions: seq<Instruction>, i: nat, k: nat)
    requires i < |instructions| && k < |instructions[i].AccountList()|
    ensures instructions[i].AccountList()[k].address in Compiled(instructions).accounts
    ensures |ReadBack(instructions)[i].AccountList()| == |instructions[i].AccountList()|
    ensures var tx, b := Compiled(instructions), Index(instructions, instructions[i].AccountList()[k].address) % 256;
            b < |tx.accounts|
            && ReadBack(instructions)[i].AccountList()[k] == AccountRef(tx.accounts[b], RoleAt(tx, b))
  {
    hide StableSort, FirstSeen, Mentions, Section, SortedMetas, RoleAt;
    CompiledIsWellFormed(instructions);
    Referenced(instructions, i, k);
    var tx := Compiled(instructions);
    CompiledAt(instructions, i);
    assert ReadBack(instructions)[i] == DecompileInstruction(tx, tx.instructions[i]);
  }

  lemma IndexLocates(instructions: seq<Instruction>, a: Address)
    requires a in Compiled(instructions).accounts
    ensures Index(instructions, a) < |Compiled(instructions).accounts|
    ensures Compiled(instructions).accounts[Index(instructions, a)] == a
  {
  }

  // All entries of the ranks below one.
  function Below(ms: seq<Meta>, rank: nat): nat {
    if rank == 0 then 0 else Below(ms, rank - 1) + |Section(ms, rank - 1)|
  }

  lemma {:induction false} BelowSnoc(ms: seq<Meta>, m: Meta, rank: nat)
    ensures Below(ms + [m], rank) == Below(ms, rank) + if Rank(m) < rank then 1 else 0
  {
    hide Section, Filter;
    if rank > 0 {
      BelowSnoc(ms, m, rank - 1);
      SectionSnoc(ms, m, rank - 1);
    }
  }

  lemma {:induction false} LowerCount(ms: seq<Meta>, rank: nat)
    ensures |Lower(ms, rank)| == Below(ms, rank)
  {
    if ms == [] {
      NothingBelow(rank);
    } else {
      hide Section;
      var front, last := ms[..|ms| - 1], ms[|ms| - 1];
      assert ms == front + [last];
      LowerCount(front, rank);
      BelowSnoc(front, last, rank);
    }
  }

  lemma {:induction false} NothingBelow(rank: nat)
    ensures Below([], rank) == 0
  {
    if rank > 0 { NothingBelow(rank - 1); }
  }

  // In its section an entry stands behind the earlier entries of its rank.
  lemma {:induction false} SectionAt(ms: seq<Meta>, j: nat)
    requires j < |ms|
    ensures var rank := Rank(ms[j]);
            |Section(ms[..j], rank)| < |Section(ms, rank)| && Section(ms, rank)[|Section(ms[..j], rank)|] == ms[j]
  {
    hide Section, Filter;
    var front, last := ms[..|ms| - 1], ms[|ms| - 1];
    assert ms == front + [last];
    SectionSnoc(front, last, Rank(ms[j]));
    if j < |front| {
      assert front[..j] == ms[..j];
      SectionAt(front, j);
    } else {
      assert ms[..j] == front;
    }
  }

  // Sorting puts every entry at its place.
  lemma SortedPlace(ms: seq<Meta>, j: nat)
    requires j < |ms|
    ensures Place(ms, j) < |StableSort(ms)| && StableSort(ms)[Place(ms, j)] == ms[j]
  {
    hide Section, StableSort, Lower;
    var rank := Rank(ms[j]);
    SortIsSections(ms);
    SectionAt(ms, j);
    LowerCount(ms, rank);
    FourRanks(ms);
  }

  lemma FourRanks(ms: seq<Meta>)
    ensures Below(ms, 0) == 0 && Below(ms, 1) == |Section(ms, 0)|
    ensures Below(ms, 2) == |Section(ms, 0)| + |Section(ms, 1)|
    ensures Below(ms, 3) == |Section(ms, 0)| + |Section(ms, 1)| + |Section(ms, 2)|
  {
    hide Section;
    assert Below(ms, 1) == Below(ms, 0) + |Section(ms, 0)|;
    assert Below(ms, 2) == Below(ms, 1) + |Section(ms, 1)|;
  }

  // The index of an account is its place among the first-seen accounts.
  lemma IndexIsPlace(instructions: seq<Instruction>, j: nat)
    requires j < |FirstSeen(Mentions(instructions))|
    ensures var d := FirstSeen(Mentions(instructions));
            d[j].address in Compiled(instructions).accounts && Index(instructions, d[j].address) == Place(d, j)
  {
    hide Place, StableSort, FirstSeen, Mentions, Section, AccountMap;
    var d := FirstSeen(Mentions(instructions));
    SortedPlace(d, j);
    assert Compiled(instructions).accounts[Place(d, j)] == d[j].address;
    AccountsExact(instructions);
    IndexLocates(instructions, d[j].address);
    SamePlace(Compiled(instructions).accounts, Index(instructions, d[j].address), Place(d, j));
  }

  lemma FitsMeansSmallIndex(instructions: seq<Instruction>, i: nat, k: nat)
    requires i < |instructions| && k < |instructions[i].AccountList()|
    ensures instructions[i].AccountList()[k].address in Compiled(instructions).accounts
    ensures IndexFits(instructions, i, k) <==> Index(instructions, instructions[i].AccountList()[k].address) < 256
  {
    hide Place, Compiled, FirstSeen, Mentions, Index;
    var a := instructions[i].AccountList()[k].address;
    var d := FirstSeen(Mentions(instructions));
    Referenced(instructions, i, k);
    AccountsExact(instructions);
    FirstSeenAddresses(Mentions(instructions));
    var j :| 0 <= j < |d| && Addresses(d)[j] == a;
    IndexIsPlace(instructions, j);
    forall l | 0 <= l < |d| && d[l].address == a
      ensures Place(d, l) == Index(instructions, a)
    {
      IndexIsPlace(instructions, l);
    }
  }

  // Truncating an index to a byte moves it to another address unless it already fits.
  lemma TruncationCollides(accounts: seq<Address>, index: nat)
    requires NoDuplicates(accounts) && index < |accounts|
    ensures accounts[index % 256] == accounts[index] <==> index < 256
  {
  }

  predicate ReadsBackUpToRoles(instructions: seq<Instruction>) {
    forall i :: 0 <= i < |instructions| ==> SameUpToRoles(ReadBack(instructions)[i], instructions[i])
  }

  predicate ReadsBack(instructions: seq<Instruction>) {
    forall i :: 0 <= i < |instructions| ==> ReadBack(instructions)[i] == Plain(instructions[i])
  }

  // One account reference: its address survives exactly if its index fits, and then its role exactly if it agrees
  // with the first mention.
  lemma RefReadBack(instructions: seq<Instruction>, i: nat, k: nat)
    requires i < |instructions| && k < |instructions[i].AccountList()|
    ensures |ReadBack(instructions)[i].AccountList()| == |instructions[i].AccountList()|
    ensures var r, back := instructions[i].AccountList()[k], ReadBack(instructions)[i].AccountList()[k];
            && (back.address == r.address <==> IndexFits(instructions, i, k))
            && (back.address == r.address ==>
                  (back.role == r.role <==> IsFirstMention(Mentions(instructions), RefMeta(r))))
  {
    hide *;
    var r := instructions[i].AccountList()[k];
    CompiledRef(instructions, i, k);
    AccountsExact(instructions);
    IndexLocates(instructions, r.address);
    FitsMeansSmallIndex(instructions, i, k);
    var index := Index(instructions, r.address);
    TruncationCollides(Compiled(instructions).accounts, index);
    if index < 256 {
      RoleDecided(instructions, index, r);
    }
  }

  lemma RoleDecided(instructions: seq<Instruction>, index: nat, r: AccountRef)
    requires index < |Compiled(instructions).accounts| && Compiled(instructions).accounts[index] == r.address
    ensures RoleAt(Compiled(instructions), index) == r.role <==> IsFirstMention(Mentions(instructions), RefMeta(r))
  {
    hide StableSort, FirstSeen, Mentions, Section, SortedMetas, IsFirstMention;
    var role := RoleAt(Compiled(instructions), index);
    PositionTellsFirstRole(instructions, index);
    if IsFirstMention(Mentions(instructions), RefMeta(r)) {
      FirstMentionUnique(Mentions(instructions), RefMeta(r), RefMeta(AccountRef(r.address, role)));
    }
  }

  lemma RestReadBack(instructions: seq<Instruction>, i: nat)
    requires i < |instructions|
    ensures var back := ReadBack(instructions)[i];
            && back.programAddress == instructions[i].programAddress
            && back.DataBytes() == instructions[i].DataBytes()
            && back.accounts.Some? && back.data.Some?
            && |back.AccountList()| == |instructions[i].AccountList()|
  {
    hide StableSort, FirstSeen, Mentions, Section, SortedMetas;
    CompiledIsWellFormed(instructions);
    AllCovered(instructions, i);
  }

  // Programs, account addresses and data are recovered exactly when every index fits in its byte.
  lemma CompileDecompileAddresses(instructions: seq<Instruction>)
    ensures ReadsBackUpToRoles(instructions) <==> IndicesFit(instructions)
  {
    hide ReadBack, IndexFits, IsFirstMention, Mentions;
    forall i, k | 0 <= i < |instructions| && 0 <= k < |instructions[i].AccountList()|
      ensures |ReadBack(instructions)[i].AccountList()| == |instructions[i].AccountList()|
      ensures ReadBack(instructions)[i].AccountList()[k].address == instructions[i].AccountList()[k].address
              <==> IndexFits(instructions, i, k)
    {
      RefReadBack(instructions, i, k);
    }
    forall i | 0 <= i < |instructions|
      ensures SameUpToRoles(ReadBack(instructions)[i], instructions[i])
              <==> forall k :: 0 <= k < |instructions[i].AccountList()| ==> IndexFits(instructions, i, k)
    {
      RestReadBack(instructions, i);
    }
  }

  // Whole instructions are recovered exactly when, in addition, roles agree with the first mention.
  lemma CompileDecompile(instructions: seq<Instruction>)
    ensures ReadsBack(instructions) <==> IndicesFit(instructions) && RolesAgree(instructions)
  {
    hide ReadBack, IndexFits, IsFirstMention, Mentions, RefMeta;
    forall i, k | 0 <= i < |instructions| && 0 <= k < |instructions[i].AccountList()|
      ensures |ReadBack(instructions)[i].AccountList()| == |instructions[i].AccountList()|
      ensures ReadBack(instructions)[i].AccountList()[k] == instructions[i].AccountList()[k]
              <==> IndexFits(instructions, i, k)
                   && IsFirstMention(Mentions(instructions), RefMeta(instructions[i].AccountList()[k]))
    {
      RefReadBack(instructions, i, k);
    }
    forall i | 0 <= i < |instructions|
      ensures ReadBack(instructions)[i] == Plain(instructions[i])
              <==> forall k :: 0 <= k < |instructions[i].AccountList()| ==>
                     IndexFits(instructions, i, k)
                     && IsFirstMention(Mentions(instructions), RefMeta(instructions[i].AccountList()[k]))
    {
      RestReadBack(instructions, i);
      var back := ReadBack(instructions)[i];
      assert back == Plain(instructions[i]) <==> back.AccountList() == instructions[i].AccountList();
    }
  }

  lemma ShortListFits(instructions: seq<Instruction>, i: nat, k: nat)
    requires i < |instructions| && k < |instructions[i].AccountList()| && |Compiled(instructions).accounts| <= 256
    ensures IndexFits(instructions, i, k)
  {
    hide *;
    FitsMeansSmallIndex(instructions, i, k);
    IndexLocates(instructions, instructions[i].AccountList()[k].address);
  }

  lemma FewAddressesFit(instructions: seq<Instruction>)
    requires |AddressSet(Addresses(Mentions(instructions)))| <= 256
    ensures IndicesFit(instructions)
  {
    hide *;
    AccountsExact(instructions);
    forall i: nat, k: nat | i < |instructions| && k < |instructions[i].AccountList()|
      ensures IndexFits(instructions, i, k)
    {
      ShortListFits(instructions, i, k);
    }
    FitEverywhere(instructions);
  }

  lemma FitEverywhere(instructions: seq<Instruction>)
    requires forall i: nat, k: nat :: i < |instructions| && k < |instructions[i].AccountList()| ==> IndexFits(instructions, i, k)
    ensures IndicesFit(instructions)
  {
  }

  // At most 256 distinct addresses are always enough.
  lemma CompileDecompileFew(instructions: seq<Instruction>)
    requires |AddressSet(Addresses(Mentions(instructions)))| <= 256
    ensures ReadsBackUpToRoles(instructions)
  {
    hide *;
    FewAddressesFit(instructions);
    CompileDecompileAddresses(instructions);
  }

  // ----- inputs on which the round trip fails

  lemma {:induction false} RefMetasAt(refs: seq<AccountRef>)
    ensures |RefMetas(refs)| == |refs|
    ensures forall k :: 0 <= k < |refs| ==> RefMetas(refs)[k] == RefMeta(refs[k])
  {
    if refs != [] {
      RefMetasAt(refs[..|refs| - 1]);
    }
  }

  lemma OneInstruction(ix: Instruction)
    ensures Mentions([ix]) == RefMetas(ix.AccountList()) + [ProgramMeta(ix.programAddress)]
  {
    assert [ix][..0] == [];
    assert Mentions([]) == [];
    assert [] + RefMetas(ix.AccountList()) == RefMetas(ix.AccountList());
  }

  // An account that is passed as read-only first and as a writable signer later stays read-only.
  lemma LaterPrivilegesLost(a: Address, program: Address)
    ensures var ix := Instruction(program, Some([AccountRef(a, Readonly), AccountRef(a, WritableSigner)]), None);
            IndicesFit([ix]) && !RolesAgree([ix]) && ReadsBackUpToRoles([ix]) && !ReadsBack([ix])
  {
    hide IndicesFit, ReadsBackUpToRoles, ReadsBack;
    var refs := [AccountRef(a, Readonly), AccountRef(a, WritableSigner)];
    var ix := Instruction(program, Some(refs), None);
    var ms := Mentions([ix]);
    RefMetasAt(refs);
    OneInstruction(ix);
    assert IsFirstMention(ms, Meta(a, false, false)) by {
      assert ms[0] == Meta(a, false, false) && Addresses(ms[..0]) == [];
    }
    if IsFirstMention(ms, RefMeta(refs[1])) {
      FirstMentionUnique(ms, RefMeta(refs[1]), Meta(a, false, false));
    }
    DistinctCount(Addresses(ms));
    FewAddressesFit([ix]);
    CompileDecompileAddresses([ix]);
    CompileDecompile([ix]);
  }

  function ManyAccounts(): (refs: seq<AccountRef>)
    ensures |refs| == 257
    ensures forall k :: 0 <= k < 257 ==> refs[k].role == Writable && |refs[k].address| == k + 1
  {
    seq(257, k requires 0 <= k => AccountRef(seq(k + 1, _ => 'A'), Writable))
  }

  lemma {:induction false} NoneSeenTwice(ms: seq<Meta>)
    requires NoDuplicates(Addresses(ms))
    ensures FirstSeen(ms) == ms
  {
    if ms != [] {
      var n := |ms| - 1;
      assert ms == ms[..n] + [ms[n]];
      assert Addresses(ms) == Addresses(ms[..n]) + [ms[n].address];
      NoneSeenTwice(ms[..n]);
      FirstSeenSnoc(ms[..n], ms[n]);
    }
  }

  // Mentions without repetition that are already in order are the account list.
  lemma AlreadySorted(instructions: seq<Instruction>)
    requires NoDuplicates(Addresses(Mentions(instructions))) && SortedByRank(Mentions(instructions))
    ensures Compiled(instructions).accounts == Addresses(Mentions(instructions))
  {
    hide StableSort, FirstSeen, Mentions, Section, SortedByRank;
    NoneSeenTwice(Mentions(instructions));
    StableSortUnique(Mentions(instructions), Mentions(instructions));
  }

  lemma ManyMentions(ix: Instruction)
    requires ix == Instruction("", Some(ManyAccounts()), None)
    ensures NoDuplicates(Addresses(Mentions([ix]))) && SortedByRank(Mentions([ix]))
    ensures |Mentions([ix])| == 258 && Mentions([ix])[256].address == ManyAccounts()[256].address
  {
    hide ManyAccounts, Mentions, RefMetas;
    RefMetasAt(ManyAccounts());
    OneInstruction(ix);
    var ms := Mentions([ix]);
    assert forall i :: 0 <= i < 257 ==> |ms[i].address| == i + 1;
    assert |ms[257].address| == 0;
  }

  // With 257 writable accounts the index of the last one does not fit.
  lemma TooManyAccounts()
    ensures var ix := Instruction("", Some(ManyAccounts()), None); !IndicesFit([ix]) && !ReadsBackUpToRoles([ix])
  {
    hide *;
    var ix := Instruction("", Some(ManyAccounts()), None);
    assert ix.AccountList() == ManyAccounts() by { ListOf(ix); }
    ManyMentions(ix);
    AlreadySorted([ix]);
    AccountsExact([ix]);
    assert !IndexFits([ix], 0, 256) by {
      FitsMeansSmallIndex([ix], 0, 256);
      IndexLocates([ix], ManyAccounts()[256].address);
      SamePlace(Compiled([ix]).accounts, Index([ix], ManyAccounts()[256].address), 256);
    }
    FitsAll([ix], 0, 256);
    CompileDecompileAddresses([ix]);
  }

  lemma ListOf(ix: Instruction)
    requires ix.accounts.Some?
    ensures ix.AccountList() == ix.accounts.value
  {
  }

  lemma SamePlace(accounts: seq<Address>, i: nat, j: nat)
    requires NoDuplicates(accounts) && i < |accounts| && j < |accounts| && accounts[i] == accounts[j]
    ensures i == j
  {
  }

  lemma FitsAll(instructions: seq<Instruction>, i: nat, k: nat)
    requires i < |instructions| && k < |instructions[i].AccountList()|
    ensures IndicesFit(instructions) ==> IndexFits(instructions, i, k)
  {
  }
}
