/** The views of orders/views.py that carry logic: `order_branch`, which
    clones a contract under its next branch number, and `order_list`, the
    day's contracts in code order. */
module Views {
  import opened Wrappers
  import opened Lex
  import opened Digits
  import opened Orders

  /** Why a branch is not created: no order with the given code (404), the
      greatest sibling has no seventh character (IndexError) or no digit
      there (ValueError), or the branch digit would pass 9. */
  datatype BranchError = NotFound | NoBranchDigit(code: string) | BranchDigitNotNumeric(code: string) | BranchesExhausted

  /** Python `s[:k]`. */
  function Take(s: string, k: nat): (r: string)
    ensures |r| == if |s| <= k then |s| else k
    ensures StartsWith(s, r)
  {
    if |s| <= k then s else s[..k]
  }

  /** The codes sharing the parent's first six characters, the parent
      among them (`filter(issue_no__startswith=prefix)`). */
  function Siblings(codes: set<string>, parent: string): (f: set<string>)
    ensures parent in codes ==> parent in f
  {
    Family(codes, Take(parent, 6))
  }

  /** The code `order_branch` gives the branch of `parent`: the parent's
      first six characters and the branch digit of the greatest code
      sharing them, plus one. */
  function NextBranchNo(codes: set<string>, parent: string): (r: Result<string, BranchError>)
    ensures r == Failure(NotFound) <==> parent !in codes
    ensures r.Success? ==> StartsWith(r.value, Take(parent, 6)) && |r.value| == |Take(parent, 6)| + 1
    ensures r.Failure? && r.error.NoBranchDigit? <==>
            parent in codes && |Greatest(Siblings(codes, parent))| <= 6
    ensures r.Failure? && r.error.BranchDigitNotNumeric? <==>
            parent in codes && var last := Greatest(Siblings(codes, parent)); |last| > 6 && !IsDigit(last[6])
    ensures r == Failure(BranchesExhausted) <==>
            parent in codes && var last := Greatest(Siblings(codes, parent)); |last| > 6 && last[6] == '9'
  {
    if parent !in codes then
      Failure(NotFound)
    else
      var prefix := Take(parent, 6);
      var last := Greatest(Siblings(codes, parent));
      if |last| <= 6 then
        Failure(NoBranchDigit(last))
      else if !IsDigit(last[6]) then
        Failure(BranchDigitNotNumeric(last))
      else
        var digit := DigitValue(last[6]) + 1;
        if digit > 9 then
          Failure(BranchesExhausted)
        else
          var code := prefix + Decimal(digit);
          assert code[..|prefix|] == prefix;
          Success(code)
  }

  /** A successful branch number is the six-character prefix followed by the
      branch digit of the greatest code sharing that prefix plus one; it sorts
      above every such code, so it is new to the table, and it differs from
      the parent's code. */
  lemma BranchFresh(codes: set<string>, parent: string)
    requires |parent| >= 6
    requires NextBranchNo(codes, parent).Success?
    ensures var code := NextBranchNo(codes, parent).value;
      var last := Greatest(Siblings(codes, parent));
      |code| == 7 && code[..6] == parent[..6] && |last| >= 7 && IsDigit(last[6]) && IsDigit(code[6]) &&
      DigitValue(code[6]) == DigitValue(last[6]) + 1 &&
      (forall c :: c in codes && StartsWith(c, parent[..6]) ==> Below(c, code)) &&
      code !in codes && code != parent
  {
    var prefix := parent[..6];
    var last := Greatest(Siblings(codes, parent));
    var digit := DigitValue(last[6]) + 1;
    var code := NextBranchNo(codes, parent).value;
    assert code == prefix + [DigitChar(digit)];
    assert last == prefix + last[6..];
    assert Below(last[6..], [DigitChar(digit)]);
    BelowCommonPrefix(prefix, last[6..], [DigitChar(digit)]);
    forall c | c in codes && StartsWith(c, prefix)
      ensures Below(c, code)
    {
      if c != last {
        BelowTransitive(c, last, code);
      }
    }
    forall c | c in codes
      ensures c != code
    {
      if StartsWith(c, prefix) {
        BelowIrreflexive(c);
      } else {
        assert code[..6] == prefix;
      }
    }
  }

  /** In a family of well-formed codes, branching succeeds exactly when the
      greatest sibling's branch digit is not yet 9. */
  lemma BranchSucceeds(codes: set<string>, parent: string)
    requires parent in codes
    requires forall c :: c in Siblings(codes, parent) ==> WellFormed(c)
    ensures var last := Greatest(Siblings(codes, parent));
            |last| == 7 && (NextBranchNo(codes, parent).Success? <==> last[6] != '9')
  {
  }

  /** Branching any member of a family gives the same code: the digit comes
      from the greatest sibling, not from the parent. */
  lemma BranchIgnoresWhichSibling(codes: set<string>, p: string, q: string)
    requires p in codes && q in codes && |p| >= 6 && |q| >= 6 && p[..6] == q[..6]
    ensures NextBranchNo(codes, p) == NextBranchNo(codes, q)
  {
    assert Take(p, 6) == Take(q, 6);
  }

  /** When every code shares the parent's prefix, all of them are siblings. */
  lemma SiblingsAll(codes: set<string>, parent: string)
    requires forall c :: c in codes ==> StartsWith(c, Take(parent, 6))
    ensures Siblings(codes, parent) == codes
  {
  }

  /** Branching "2500011" while "2500013" exists gives "2500014". */
  lemma BranchFromGreatestSibling(codes: set<string>, parent: string)
    requires codes == {"2500010", "2500011", "2500013"} && parent == "2500011"
    ensures NextBranchNo(codes, parent) == Success("2500014")
  {
    var prefix := "250001";
    assert Take(parent, 6) == prefix;
    assert "2500010" == prefix + "0" && "2500011" == prefix + "1" && "2500013" == prefix + "3";
    assert StartsWith("2500010", prefix) && StartsWith("2500011", prefix) && StartsWith("2500013", prefix);
    SiblingsAll(codes, parent);
    assert Below("0", "3") && Below("1", "3");
    BelowCommonPrefix(prefix, "0", "3");
    BelowCommonPrefix(prefix, "1", "3");
    GreatestIs(codes, "2500013");
    var last := Greatest(Siblings(codes, parent));
    assert last == prefix + "3";
    assert |last| > 6 && last[6] == '3' && DigitValue(last[6]) + 1 == 4;
    assert Decimal(4) == "4";
    assert prefix + Decimal(4) == "2500014";
  }

  /** After a branch is stored, the next branch of the same family gets the
      following digit, until digit 9 is reached and branching is refused. */
  lemma BranchChain(codes: set<string>, parent: string)
    requires |parent| >= 6
    requires NextBranchNo(codes, parent).Success?
    ensures var code := NextBranchNo(codes, parent).value;
      var next := NextBranchNo(codes + {code}, parent);
      (code[6] == '9' ==> next == Failure(BranchesExhausted)) &&
      (code[6] != '9' ==> next.Success? && DigitValue(next.value[6]) == DigitValue(code[6]) + 1)
  {
    BranchFresh(codes, parent);
    var code := NextBranchNo(codes, parent).value;
    var prefix := parent[..6];
    var family' := Family(codes + {code}, prefix);
    assert StartsWith(code, prefix);
    assert family' == Family(codes, prefix) + {code};
    GreatestIs(family', code);
    assert DigitValue(code[6]) == 9 <==> code[6] == '9';
    if code[6] != '9' {
      BranchFresh(codes + {code}, parent);
    }
  }

  /** The first branch of a contract without branches has digit 1. */
  lemma FirstBranchIsOne(codes: set<string>, parent: string)
    requires parent in codes && WellFormed(parent) && parent[6] == '0'
    requires forall c :: c in codes && StartsWith(c, parent[..6]) ==> c == parent
    ensures NextBranchNo(codes, parent) == Success(parent[..6] + "1")
  {
    var family := Family(codes, parent[..6]);
    assert family == {parent};
    GreatestIs(family, parent);
    assert Decimal(1) == "1";
  }

  /** `order_branch`: the order `pk` is cloned under its next branch number
      with `issue_date` set to `today` and saved; the parent row stays as it
      was. When the digit would pass 9 nothing is created. */
  method OrderBranch(store: OrderStore, pk: string, today: Date) returns (r: Result<string, BranchError>)
    requires store.Valid()
    modifies store
    ensures store.Valid()
    ensures r == NextBranchNo(old(store.orders).Keys, pk)
    ensures r.Failure? ==> store.orders == old(store.orders)
    ensures r.Success? ==>
      pk in old(store.orders) &&
      store.orders == old(store.orders)[r.value := old(store.orders)[pk].(issueNo := r.value, issueDate := today)]
    ensures r.Success? ==> pk in store.orders && store.orders[pk] == old(store.orders)[pk]
    ensures r.Success? && |pk| >= 6 ==>
      r.value !in old(store.orders) && |store.orders| == |old(store.orders)| + 1
  {
    if pk !in store.orders {
      return Failure(NotFound);
    }
    var original := store.orders[pk];
    r := NextBranchNo(store.orders.Keys, pk);
    if r.Failure? {
      return;
    }
    if |pk| >= 6 {
      BranchFresh(store.orders.Keys, pk);
    }
    var clone := original.(issueNo := r.value, issueDate := today);
    var saved := store.Save(clone, today.year);
    assert saved == Success(r.value);
  }

  /** Every code listed is looked up into the listed orders. */
  lemma ListsEvery(orders: map<string, Order>, codes: seq<string>, r: seq<Order>)
    requires |r| == |codes| && forall i :: 0 <= i < |codes| ==> codes[i] in orders && r[i] == orders[codes[i]]
    ensures forall code :: code in codes ==> orders[code] in r
  {
    forall code | code in codes
      ensures orders[code] in r
    {
      var i :| 0 <= i < |codes| && codes[i] == code;
      assert r[i] == orders[code];
    }
  }

  /** `order_list`: `Order.objects.filter(issue_date=today).order_by('issue_no')`,
      exactly the orders of the day, in ascending code order. */
  function TodaysOrders(orders: map<string, Order>, today: Date): (r: seq<Order>)
    requires KeysMatch(orders)
    ensures forall i :: 0 <= i < |r| ==>
      r[i].issueNo in orders && orders[r[i].issueNo] == r[i] && r[i].issueDate == today
    ensures forall code :: code in orders && orders[code].issueDate == today ==> orders[code] in r
    ensures forall i, j :: 0 <= i < j < |r| ==> Below(r[i].issueNo, r[j].issueNo)
  {
    var codes := SortedCodes(set code | code in orders && orders[code].issueDate == today);
    var r := seq(|codes|, i requires 0 <= i < |codes| => orders[codes[i]]);
    ListsEvery(orders, codes, r);
    r
  }
}
