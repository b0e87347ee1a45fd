// The account list of a compiled transaction in terms of the instructions themselves: who is listed, with which role,
// and in which order.

module TukTukOrder {
  import opened PrimeField
  import opened TukTukCompiler
  import opened TukTukRoundTrip

  // ----- mentions

  // Instructions are scanned from the first to the last.
  lemma {:induction false} MentionsConcat(a: seq<Instruction>, b: seq<Instruction>)
    ensures Mentions(a + b) == Mentions(a) + Mentions(b)
  {
    hide Mentions;
    if b == [] {
      assert a + b == a;
      NothingMentioned();
    } else {
      var front, last := b[..|b| - 1], b[|b| - 1];
      MentionsConcat(a, front);
      assert b == front + [last] && a + b == (a + front) + [last];
      MentionsSnoc(front, last);
      MentionsSnoc(a + front, last);
    }
  }

  lemma MentionsSnoc(ixs: seq<Instruction>, ix: Instruction)
    ensures Mentions(ixs + [ix]) == Mentions(ixs) + (RefMetas(ix.AccountList()) + [ProgramMeta(ix.programAddress)])
  {
    hide RefMetas;
    assert (ixs + [ix])[..|ixs|] == ixs;
  }

  lemma NothingMentioned()
    ensures Mentions([]) == []
  {
  }

  // What an instruction names, one after the other: its accounts, then its program.
  function Named(ix: Instruction, k: nat): Address
    requires k <= |ix.AccountList()|
  {
    if k < |ix.AccountList()| then ix.AccountList()[k].address else ix.programAddress
  }

  // The role under which it is named: programs are named as read-only.
  function NamedRole(ix: Instruction, k: nat): AccountRole
    requires k <= |ix.AccountList()|
  {
    if k < |ix.AccountList()| then ix.AccountList()[k].role else Readonly
  }

  // Instruction i is the first to name this address, and names it at position k for the first time.
  ghost predicate FirstNamed(ixs: seq<Instruction>, i: nat, k: nat)
    requires i < |ixs| && k <= |ixs[i].AccountList()|
  {
    && (forall h: nat, l: nat :: h < i && l <= |ixs[h].AccountList()| ==> Named(ixs[h], l) != Named(ixs[i], k))
    && (forall l: nat :: l < k ==> Named(ixs[i], l) != Named(ixs[i], k))
  }

  // The position of a naming among all mentions.
  function Position(ixs: seq<Instruction>, i: nat, k: nat): nat
    requires i < |ixs|
  {
    |Mentions(ixs[..i])| + k
  }

  lemma InstructionMentions(ix: Instruction)
    ensures |Mentions([ix])| == |ix.AccountList()| + 1
    ensures forall k: nat :: k <= |ix.AccountList()| ==> Mentions([ix])[k] == RefMeta(AccountRef(Named(ix, k), NamedRole(ix, k)))
  {
    hide RefMetas, Mentions;
    OneInstruction(ix);
    RefMetasAt(ix.AccountList());
  }

  lemma MentionsFrom(ixs: seq<Instruction>, i: nat)
    requires i < |ixs|
    ensures Mentions(ixs) == Mentions(ixs[..i]) + Mentions([ixs[i]]) + Mentions(ixs[i + 1..])
  {
    hide Mentions;
    SplitAt(ixs, i);
    MentionsAround(ixs[..i], ixs[i], ixs[i + 1..]);
  }

  lemma SplitAt<T>(s: seq<T>, i: nat)
    requires i < |s|
    ensures s[..i] + [s[i]] + s[i + 1..] == s
  {
  }

  lemma MentionsAround(front: seq<Instruction>, ix: Instruction, rest: seq<Instruction>)
    ensures Mentions(front + [ix] + rest) == Mentions(front) + Mentions([ix]) + Mentions(rest)
  {
    hide Mentions;
    MentionsConcat(front + [ix], rest);
    MentionsConcat(front, [ix]);
  }

  lemma MentionAt(ixs: seq<Instruction>, i: nat, k: nat)
    requires i < |ixs| && k <= |ixs[i].AccountList()|
    ensures Position(ixs, i, k) < |Mentions(ixs)|
    ensures Mentions(ixs)[Position(ixs, i, k)] == RefMeta(AccountRef(Named(ixs[i], k), NamedRole(ixs[i], k)))
  {
    hide Mentions, Named, NamedRole, RefMeta;
    MentionsFrom(ixs, i);
    InstructionMentions(ixs[i]);
  }

  // Every mention is some naming.
  lemma {:induction false} NamingOf(ixs: seq<Instruction>, x: nat) returns (i: nat, k: nat)
    requires x < |Mentions(ixs)|
    ensures i < |ixs| && k <= |ixs[i].AccountList()| && x == Position(ixs, i, k)
  {
    assert ixs != [] by { if ixs == [] { NothingMentioned(); } }
    var n := |ixs| - 1;
    var front := ixs[..n];
    MentionsFrom(ixs, n);
    InstructionMentions(ixs[n]);
    NothingMentioned();
    assert ixs[n + 1..] == [];
    if x < |Mentions(front)| {
      i, k := NamingOf(front, x);
      assert front[..i] == ixs[..i];
    } else {
      i, k := n, x - |Mentions(front)|;
    }
  }

  // Positions follow the order of instructions, and within one the order of its accounts.
  predicate Before(i: nat, k: nat, h: nat, l: nat) {
    i < h || (i == h && k < l)
  }

  lemma PositionOrder(ixs: seq<Instruction>, i: nat, k: nat, h: nat, l: nat)
    requires i < |ixs| && k <= |ixs[i].AccountList()| && h < |ixs| && l <= |ixs[h].AccountList()|
    ensures Position(ixs, i, k) < Position(ixs, h, l) <==> Before(i, k, h, l)
  {
    hide Mentions;
    if i < h { PositionGrows(ixs, i, h); }
    if h < i { PositionGrows(ixs, h, i); }
  }

  lemma PositionGrows(ixs: seq<Instruction>, i: nat, h: nat)
    requires i < h <= |ixs|
    ensures |Mentions(ixs[..i])| + |ixs[i].AccountList()| < |Mentions(ixs[..h])|
  {
    hide Mentions;
    MentionsFrom(ixs[..h], i);
    assert ixs[..h][..i] == ixs[..i];
    InstructionMentions(ixs[i]);
  }

  // ----- first mentions

  predicate FirstAt(ms: seq<Meta>, x: nat)
    requires x < |ms|
  {
    ms[x].address !in Addresses(ms[..x])
  }

  lemma FirstNamedIsFirst(ixs: seq<Instruction>, i: nat, k: nat)
    requires i < |ixs| && k <= |ixs[i].AccountList()|
    ensures Position(ixs, i, k) < |Mentions(ixs)|
    ensures FirstNamed(ixs, i, k) <==> FirstAt(Mentions(ixs), Position(ixs, i, k))
  {
    hide Mentions, Named, NamedRole, Position, Before;
    var ms, x := Mentions(ixs), Position(ixs, i, k);
    MentionAt(ixs, i, k);
    if FirstNamed(ixs, i, k) && !FirstAt(ms, x) {
      var y :| 0 <= y < x && Addresses(ms[..x])[y] == ms[x].address;
      var h, l := NamingOf(ixs, y);
      MentionAt(ixs, h, l);
      PositionOrder(ixs, h, l, i, k);
      BeforeCases(h, l, i, k);
    }
    if FirstAt(ms, x) {
      forall h: nat, l: nat | h < |ixs| && l <= |ixs[h].AccountList()| && Before(h, l, i, k)
        ensures Named(ixs[h], l) != Named(ixs[i], k)
      {
        MentionAt(ixs, h, l);
        PositionOrder(ixs, h, l, i, k);
        assert Addresses(ms[..x])[Position(ixs, h, l)] == Named(ixs[h], l);
      }
      AllBefore(ixs, i, k);
    }
  }

  lemma BeforeCases(h: nat, l: nat, i: nat, k: nat)
    ensures Before(h, l, i, k) <==> h < i || (h == i && l < k)
  {
  }

  lemma AllBefore(ixs: seq<Instruction>, i: nat, k: nat)
    requires i < |ixs| && k <= |ixs[i].AccountList()|
    requires forall h: nat, l: nat :: h < |ixs| && l <= |ixs[h].AccountList()| && Before(h, l, i, k) ==>
               Named(ixs[h], l) != Named(ixs[i], k)
    ensures FirstNamed(ixs, i, k)
  {
    hide Named;
    assert forall h: nat, l: nat :: h < i && l <= |ixs[h].AccountList()| ==> Before(h, l, i, k);
    assert forall l: nat :: l < k ==> Before(i, l, i, k);
  }

  // First mentions are kept in their order.
  lemma {:induction false} FirstSeenPrefix(ms: seq<Meta>, x: nat)
    requires x <= |ms|
    ensures FirstSeen(ms[..x]) <= FirstSeen(ms)
  {
    if x < |ms| {
      var n := |ms| - 1;
      FirstSeenPrefix(ms[..n], x);
      assert ms[..n][..x] == ms[..x];
      assert ms == ms[..n] + [ms[n]];
      FirstSeenSnoc(ms[..n], ms[n]);
    } else {
      assert ms[..x] == ms;
    }
  }

  // The rank of a first mention among the first mentions.
  function FirstsBefore(ms: seq<Meta>, x: nat): nat
    requires x <= |ms|
  {
    |FirstSeen(ms[..x])|
  }

  lemma FirstSeenAt(ms: seq<Meta>, x: nat)
    requires x < |ms| && FirstAt(ms, x)
    ensures FirstsBefore(ms, x) < |FirstSeen(ms)| && FirstSeen(ms)[FirstsBefore(ms, x)] == ms[x]
    ensures forall y :: x < y <= |ms| ==> FirstsBefore(ms, x) < FirstsBefore(ms, y)
  {
    hide FirstSeen;
    assert ms[..x + 1] == ms[..x] + [ms[x]];
    FirstSeenSnoc(ms[..x], ms[x]);
    FirstSeenAddresses(ms[..x]);
    FirstSeenPrefix(ms, x + 1);
    forall y | x < y <= |ms|
      ensures FirstsBefore(ms, x) < FirstsBefore(ms, y)
    {
      FirstSeenPrefix(ms[..y], x + 1);
      assert ms[..y][..x + 1] == ms[..x + 1];
    }
  }

  // ----- places

  lemma {:induction false} SectionGrows(ms: seq<Meta>, j: nat, l: nat, rank: nat)
    requires j <= l <= |ms|
    ensures |Section(ms[..j], rank)| <= |Section(ms[..l], rank)|
    decreases l - j
  {
    hide Section, Filter;
    if j < l {
      SectionGrows(ms, j, l - 1, rank);
      assert ms[..l] == ms[..l - 1] + [ms[l - 1]];
      SectionSnoc(ms[..l - 1], ms[l - 1], rank);
    }
  }

  // Of two first mentions with one role the earlier one has the smaller place.
  lemma PlaceOrder(ms: seq<Meta>, j: nat, l: nat)
    requires j < l < |ms| && Rank(ms[j]) == Rank(ms[l])
    ensures Place(ms, j) < Place(ms, l)
  {
    hide Section, Filter, Rank, Lower;
    assert ms[..j + 1] == ms[..j] + [ms[j]];
    SectionSnoc(ms[..j], ms[j], Rank(ms[j]));
    SectionGrows(ms, j + 1, l, Rank(ms[j]));
  }

  // ----- the account list

  lemma Listed(ixs: seq<Instruction>, i: nat, k: nat)
    requires i < |ixs| && k <= |ixs[i].AccountList()| && FirstNamed(ixs, i, k)
    ensures Named(ixs[i], k) in Compiled(ixs).accounts
    ensures Position(ixs, i, k) < |Mentions(ixs)| && FirstAt(Mentions(ixs), Position(ixs, i, k))
    ensures var d, j := FirstSeen(Mentions(ixs)), FirstsBefore(Mentions(ixs), Position(ixs, i, k));
            && j < |d| && d[j] == RefMeta(AccountRef(Named(ixs[i], k), NamedRole(ixs[i], k)))
            && Index(ixs, Named(ixs[i], k)) == Place(d, j)
  {
    hide Mentions, Named, NamedRole, Position, FirstNamed, FirstSeen, Compiled, Index, Place, FirstsBefore, FirstAt;
    FirstNamedIsFirst(ixs, i, k);
    MentionAt(ixs, i, k);
    FirstSeenAt(Mentions(ixs), Position(ixs, i, k));
    IndexIsPlace(ixs, FirstsBefore(Mentions(ixs), Position(ixs, i, k)));
  }

  // The place of an address in the list tells the role under which it was named first.
  lemma FirstRole(ixs: seq<Instruction>, i: nat, k: nat)
    requires i < |ixs| && k <= |ixs[i].AccountList()| && FirstNamed(ixs, i, k)
    ensures Named(ixs[i], k) in Compiled(ixs).accounts
    ensures RoleAt(Compiled(ixs), Index(ixs, Named(ixs[i], k))) == NamedRole(ixs[i], k)
  {
    hide Mentions, Named, NamedRole, Position, FirstNamed, FirstSeen, Compiled, Index, Place, FirstsBefore, FirstAt, RoleAt;
    var a, role := Named(ixs[i], k), NamedRole(ixs[i], k);
    Listed(ixs, i, k);
    IndexLocates(ixs, a);
    MentionAt(ixs, i, k);
    FirstOccurrence(Mentions(ixs), Position(ixs, i, k), RefMeta(AccountRef(a, role)));
    RoleDecided(ixs, Index(ixs, a), AccountRef(a, role));
  }

  // The list begins with the writable signers, then come the read-only signers, the writable accounts and the rest, as
  // many as the header counts.
  lemma HeaderDecides(ixs: seq<Instruction>, i: nat, k: nat)
    requires i < |ixs| && k <= |ixs[i].AccountList()| && FirstNamed(ixs, i, k)
    ensures Named(ixs[i], k) in Compiled(ixs).accounts
    ensures var tx, x, role := Compiled(ixs), Index(ixs, Named(ixs[i], k)), NamedRole(ixs[i], k);
            && (role == WritableSigner <==> x < tx.numRwSigners)
            && (role == ReadonlySigner <==> tx.numRwSigners <= x < tx.numRwSigners + tx.numRoSigners)
            && (role == Writable <==>
                  tx.numRwSigners + tx.numRoSigners <= x < tx.numRwSigners + tx.numRoSigners + tx.numRw)
            && (role == Readonly <==> tx.numRwSigners + tx.numRoSigners + tx.numRw <= x)
  {
    hide Compiled, Index, Named, NamedRole, FirstNamed;
    FirstRole(ixs, i, k);
  }

  lemma FirstOccurrence(ms: seq<Meta>, x: nat, m: Meta)
    requires x < |ms| && FirstAt(ms, x) && ms[x] == m
    ensures IsFirstMention(ms, m)
  {
  }

  // An account that no earlier instruction names, as account or as program, and that its instruction does not pass
  // earlier, stands in the section of the role with which it is passed.
  lemma FirstPassedRole(ixs: seq<Instruction>, i: nat, k: nat)
    requires i < |ixs| && k < |ixs[i].AccountList()|
    requires forall h: nat :: h < i ==> ixs[h].programAddress != ixs[i].AccountList()[k].address
    requires forall h: nat, l: nat :: h < i && l < |ixs[h].AccountList()| ==>
               ixs[h].AccountList()[l].address != ixs[i].AccountList()[k].address
    requires forall l: nat :: l < k ==> ixs[i].AccountList()[l].address != ixs[i].AccountList()[k].address
    ensures ixs[i].AccountList()[k].address in Compiled(ixs).accounts
    ensures RoleAt(Compiled(ixs), Index(ixs, ixs[i].AccountList()[k].address)) == ixs[i].AccountList()[k].role
  {
    hide Compiled, Index, RoleAt;
    FirstRole(ixs, i, k);
  }

  // A program that no earlier instruction names and its own instruction does not pass stands among the read-only accounts.
  lemma FirstAsProgram(ixs: seq<Instruction>, i: nat)
    requires i < |ixs|
    requires forall h: nat :: h < i ==> ixs[h].programAddress != ixs[i].programAddress
    requires forall h: nat, l: nat :: h <= i && l < |ixs[h].AccountList()| ==>
               ixs[h].AccountList()[l].address != ixs[i].programAddress
    ensures ixs[i].programAddress in Compiled(ixs).accounts
    ensures RoleAt(Compiled(ixs), Index(ixs, ixs[i].programAddress)) == Readonly
  {
    hide Compiled, Index, RoleAt;
    FirstRole(ixs, i, |ixs[i].AccountList()|);
  }

  // Within a section the accounts stand in the order in which they were named first.
  lemma OrderInSection(ixs: seq<Instruction>, i: nat, k: nat, h: nat, l: nat)
    requires i < |ixs| && k <= |ixs[i].AccountList()| && FirstNamed(ixs, i, k)
    requires h < |ixs| && l <= |ixs[h].AccountList()| && FirstNamed(ixs, h, l)
    requires NamedRole(ixs[i], k) == NamedRole(ixs[h], l)
    ensures Named(ixs[i], k) in Compiled(ixs).accounts && Named(ixs[h], l) in Compiled(ixs).accounts
    ensures Index(ixs, Named(ixs[i], k)) < Index(ixs, Named(ixs[h], l)) <==> i < h || (i == h && k < l)
  {
    hide Mentions, Named, NamedRole, Position, FirstNamed, FirstSeen, Compiled, Index, Place, FirstsBefore, FirstAt;
    Listed(ixs, i, k);
    Listed(ixs, h, l);
    MentionAt(ixs, i, k);
    MentionAt(ixs, h, l);
    PositionOrder(ixs, i, k, h, l);
    PositionOrder(ixs, h, l, i, k);
    PlacesFollow(Mentions(ixs), Position(ixs, i, k), Position(ixs, h, l));
    PlacesFollow(Mentions(ixs), Position(ixs, h, l), Position(ixs, i, k));
  }

  lemma PlacesFollow(ms: seq<Meta>, x: nat, y: nat)
    requires x < |ms| && y < |ms| && FirstAt(ms, x) && FirstAt(ms, y) && Rank(ms[x]) == Rank(ms[y])
    ensures FirstsBefore(ms, x) < |FirstSeen(ms)| && FirstsBefore(ms, y) < |FirstSeen(ms)|
    ensures x < y ==> Place(FirstSeen(ms), FirstsBefore(ms, x)) < Place(FirstSeen(ms), FirstsBefore(ms, y))
  {
    hide FirstSeen, Place, FirstsBefore, FirstAt, Rank;
    FirstSeenAt(ms, x);
    FirstSeenAt(ms, y);
    if x < y { PlaceOrder(FirstSeen(ms), FirstsBefore(ms, x), FirstsBefore(ms, y)); }
  }

  // Nothing is listed but what some instruction names, and every listed address is named first somewhere: together with
  // the roles and the order this fixes the list.
  lemma ListedIsNamed(ixs: seq<Instruction>, a: Address)
    ensures a in Compiled(ixs).accounts
            <==> exists i: nat, k: nat :: i < |ixs| && k <= |ixs[i].AccountList()| && Named(ixs[i], k) == a && FirstNamed(ixs, i, k)
  {
    hide Mentions, Named, NamedRole, Position, FirstNamed, FirstSeen, Compiled, Index, Place, FirstsBefore, FirstAt;
    if a in Compiled(ixs).accounts {
      AccountsExact(ixs);
      var x := FirstOf(Mentions(ixs), a);
      var i, k := NamingOf(ixs, x);
      MentionAt(ixs, i, k);
      FirstNamedIsFirst(ixs, i, k);
    }
    forall i: nat, k: nat | i < |ixs| && k <= |ixs[i].AccountList()| && Named(ixs[i], k) == a && FirstNamed(ixs, i, k)
      ensures a in Compiled(ixs).accounts
    {
      Listed(ixs, i, k);
    }
  }

  lemma {:induction false} FirstOf(ms: seq<Meta>, a: Address) returns (x: nat)
    requires a in Addresses(ms)
    ensures x < |ms| && ms[x].address == a && FirstAt(ms, x)
  {
    var n := |ms| - 1;
    assert Addresses(ms) == Addresses(ms[..n]) + [ms[n].address];
    if a in Addresses(ms[..n]) {
      x := FirstOf(ms[..n], a);
      assert ms[..n][..x] == ms[..x];
    } else {
      x := n;
    }
  }

  // ----- an input on which a later instruction loses its privileges

  // Instruction 0 passes an account as read-only, instruction 1 passes it as a writable signer: no account is a signer
  // or writable.
  lemma LaterInstructionLosesPrivileges(a: Address, program: Address)
    requires a != program
    ensures var ixs := [Instruction(program, Some([AccountRef(a, Readonly)]), None),
                        Instruction(program, Some([AccountRef(a, WritableSigner)]), None)];
            && Compiled(ixs).accounts == [a, program]
            && Compiled(ixs).numRwSigners == Compiled(ixs).numRoSigners == Compiled(ixs).numRw == 0
            && ReadsBackUpToRoles(ixs) && !ReadsBack(ixs)
  {
    hide Compiled, ReadsBack, ReadsBackUpToRoles, IndicesFit, RolesAgree, IsFirstMention, Mentions;
    var x := Instruction(program, Some([AccountRef(a, Readonly)]), None);
    var y := Instruction(program, Some([AccountRef(a, WritableSigner)]), None);
    var ixs := [x, y];
    FourMentions(a, program, x, y);
    var ms := Mentions(ixs);
    FirstOccurrence(ms, 0, ms[0]);
    assert RefMeta(ixs[1].AccountList()[0]) == Meta(a, true, true);
    if IsFirstMention(ms, Meta(a, true, true)) {
      FirstMentionUnique(ms, ms[0], Meta(a, true, true));
    }
    NotAgreed(ixs, 1, 0);
    ReadonlyList(ixs, a, program);
    DistinctCount(Addresses(ms));
    FewAddressesFit(ixs);
    CompileDecompileAddresses(ixs);
    CompileDecompile(ixs);
  }

  lemma NotAgreed(ixs: seq<Instruction>, i: nat, k: nat)
    requires i < |ixs| && k < |ixs[i].AccountList()| && !IsFirstMention(Mentions(ixs), RefMeta(ixs[i].AccountList()[k]))
    ensures !RolesAgree(ixs)
  {
  }

  lemma FourMentions(a: Address, program: Address, x: Instruction, y: Instruction)
    requires x == Instruction(program, Some([AccountRef(a, Readonly)]), None)
    requires y == Instruction(program, Some([AccountRef(a, WritableSigner)]), None)
    ensures Mentions([x, y]) == [Meta(a, false, false), Meta(program, false, false), Meta(a, true, true), Meta(program, false, false)]
  {
    hide Mentions;
    MentionsConcat([x], [y]);
    assert [x] + [y] == [x, y];
    InstructionMentions(x);
    InstructionMentions(y);
  }

  lemma ReadonlyList(ixs: seq<Instruction>, a: Address, program: Address)
    requires a != program
    requires Mentions(ixs) == [Meta(a, false, false), Meta(program, false, false), Meta(a, true, true), Meta(program, false, false)]
    ensures Compiled(ixs).accounts == [a, program]
    ensures Compiled(ixs).numRwSigners == Compiled(ixs).numRoSigners == Compiled(ixs).numRw == 0
  {
    hide StableSort, Section, FirstSeen, Mentions;
    var d := [Meta(a, false, false), Meta(program, false, false)];
    assert FirstSeen(Mentions(ixs)) == d by { TwoSeen(Mentions(ixs), a, program); }
    StableSortUnique(d, d);
    SectionMembers(d, 0);
    SectionMembers(d, 1);
    SectionMembers(d, 2);
    NoMembers(Section(d, 0));
    NoMembers(Section(d, 1));
    NoMembers(Section(d, 2));
    assert Addresses(d) == [a, program];
  }

  lemma NoMembers(ms: seq<Meta>)
    ensures ms == [] || ms[0] in ms
  {
  }

  lemma TwoSeen(ms: seq<Meta>, a: Address, program: Address)
    requires a != program
    requires ms == [Meta(a, false, false), Meta(program, false, false), Meta(a, true, true), Meta(program, false, false)]
    ensures FirstSeen(ms) == [Meta(a, false, false), Meta(program, false, false)]
  {
    hide FirstSeen, Addresses;
    var d := ms[..2];
    TwoAddresses(d);
    NoneSeenTwice(d);
    assert ms[..3] == d + [ms[2]] && ms == ms[..3] + [ms[3]];
    FirstSeenSnoc(d, ms[2]);
    FirstSeenSnoc(ms[..3], ms[3]);
  }

  lemma TwoAddresses(d: seq<Meta>)
    requires |d| == 2
    ensures Addresses(d) == [d[0].address, d[1].address]
    ensures d[0].address != d[1].address ==> NoDuplicates(Addresses(d))
  {
  }
}
