/** The order (contract) table of orders/models.py: the `Order` record, its
    automatic contract numbering in `Order.save`, and the table itself. */
module Orders {
  import opened Wrappers
  import opened Lex
  import opened Digits

  /** A calendar date; only compared for equality here. */
  datatype Date = Date(year: nat, month: nat, day: nat)

  /** One contract. `issueNo` is the primary key; `coordinator` is the id of
      a staff member, NULL once that staff member is deleted. Float columns
      are reals. */
  datatype Order = Order(
    issueNo: string,
    issueDate: Date,
    site: string,
    siteAddress: string,
    customer: string,
    contractor: string,
    coordinator: Option<nat>,
    contact: string,
    product: string,
    productCategory: string,
    note: string,
    firstShipDate: Date,
    qty: real,
    rotation: int,
    price: int,
    materialSoil: string,
    water: real,
    cementBB: real,
    recycleSand: real,
    admixture: real,
    materialSoilWm: real,
    siteTest: bool,
    night: bool,
    outside23: bool,
    materialDelivery: bool,
    specialNote: string)

  /** `int(...)` raised ValueError: the greatest code of the year has no
      numeric sequence in characters 2..6. */
  datatype SaveError = SequenceNotNumeric(code: string)

  /** `max_length` of the `issue_no` column. */
  const CodeLength: nat := 7

  /** A code of the shape YY NNNN B: seven ASCII digits. */
  predicate WellFormed(code: string)
  {
    |code| == CodeLength && AllDigits(code)
  }

  /** The four-digit sequence NNNN of a well-formed code. */
  function SequenceOf(code: string): nat
    requires WellFormed(code)
  {
    Parse(code[2..6])
  }

  /** The table is keyed by each order's own `issue_no`. */
  predicate KeysMatch(orders: map<string, Order>)
  {
    forall code :: code in orders ==> orders[code].issueNo == code
  }

  /** `str(year)[2:]`. */
  function YearPrefix(year: nat): string
  {
    var s := Decimal(year);
    if |s| <= 2 then "" else s[2..]
  }

  /** The codes that `filter(issue_no__startswith=prefix)` selects. */
  function Family(codes: set<string>, prefix: string): set<string>
  {
    set c | c in codes && StartsWith(c, prefix)
  }

  /** Storing an order under its own code keeps the table keyed by codes. */
  lemma KeysMatchUpdate(orders: map<string, Order>, o: Order)
    requires KeysMatch(orders)
    ensures KeysMatch(orders[o.issueNo := o])
  {
  }

  /** A new code with the prefix joins that prefix's family. */
  lemma FamilyAdd(codes: set<string>, prefix: string, code: string)
    requires StartsWith(code, prefix)
    ensures Family(codes + {code}, prefix) == Family(codes, prefix) + {code}
  {
  }

  /** Every code of `year` in the table is well-formed and its sequence is
      below `bound`. */
  predicate SequencesBelow(codes: set<string>, year: nat, bound: nat)
  {
    forall c :: c in codes && StartsWith(c, YearPrefix(year)) ==> WellFormed(c) && SequenceOf(c) < bound
  }

  /** The code `Order.save` assigns to an order saved with a blank
      `issue_no` in `year`: the year prefix, the sequence of the greatest code
      of that year plus one padded to four digits, and branch digit 0; the
      first code of a year is sequence 0001. */
  function NextIssueNo(codes: set<string>, year: nat): (r: Result<string, SaveError>)
    ensures r.Success? ==> StartsWith(r.value, YearPrefix(year)) && |r.value| > 0 && r.value[|r.value| - 1] == '0'
    ensures Family(codes, YearPrefix(year)) == {} ==> r == Success(YearPrefix(year) + "00010")
    ensures var family := Family(codes, YearPrefix(year));
            r.Failure? <==>
              (family != {} && (Slice(Greatest(family), 2, 6) == [] || !AllDigits(Slice(Greatest(family), 2, 6))))
    ensures r.Failure? ==> r.error.code == Greatest(Family(codes, YearPrefix(year)))
  {
    var prefix := YearPrefix(year);
    var family := Family(codes, prefix);
    if family == {} then
      assert "0001" + "0" == "00010";
      assert prefix + "0001" + "0" == prefix + "00010";
      Success(prefix + "0001" + "0")
    else
      var last := Greatest(family);
      var digits := Slice(last, 2, 6);
      if digits == [] || !AllDigits(digits) then
        Failure(SequenceNotNumeric(last))
      else
        var newSeq := ZFill(Decimal(Parse(digits) + 1), 4);
        var code := prefix + newSeq + "0";
        assert code[..|prefix|] == prefix && code[|code| - 1] == '0';
        Success(code)
  }

  lemma YearPrefixShape(year: nat)
    requires 1000 <= year <= 9999
    ensures |YearPrefix(year)| == 2 && AllDigits(YearPrefix(year))
  {
    assert Pow10(3) == 1000 && Pow10(4) == 10000;
    DecimalLength(year, 4);
  }

  /** Among well-formed codes of one year, a code below another has a
      sequence at most the other's. */
  lemma SequenceMonotone(c: string, d: string, prefix: string)
    requires |prefix| == 2
    requires WellFormed(c) && WellFormed(d) && StartsWith(c, prefix) && StartsWith(d, prefix)
    requires Below(c, d)
    ensures SequenceOf(c) <= SequenceOf(d)
  {
    assert c == prefix + c[2..] && d == prefix + d[2..];
    BelowCommonPrefix(prefix, c[2..], d[2..]);
    BelowSnoc(c[2..], d[2..]);
    assert c[2..][..4] == c[2..6] && d[2..][..4] == d[2..6];
    if Below(c[2..6], d[2..6]) {
      ParseBelow(c[2..6], d[2..6]);
    }
  }

  /** A code of the year with a larger four-digit sequence and branch digit 0
      sorts above a well-formed code of the same year. */
  lemma BelowLargerSequence(prefix: string, last: string, newSeq: string)
    requires |prefix| == 2 && WellFormed(last) && StartsWith(last, prefix)
    requires |newSeq| == 4 && AllDigits(newSeq) && Parse(last[2..6]) < Parse(newSeq)
    ensures Below(last, prefix + newSeq + "0")
  {
    ParseOrder(last[2..6], newSeq);
    BelowAppend(last[2..6], newSeq, last[6..], "0");
    assert last == prefix + (last[2..6] + last[6..]);
    assert prefix + newSeq + "0" == prefix + (newSeq + "0");
    BelowCommonPrefix(prefix, last[2..6] + last[6..], newSeq + "0");
  }

  /** When the year already has codes, all well-formed and below sequence
      9999, the assigned code is well-formed, its sequence is one more than
      that of the greatest code of the year, and it sorts above that code. */
  lemma IssueNoSequence(codes: set<string>, year: nat)
    requires 1000 <= year <= 9999
    requires SequencesBelow(codes, year, 9999)
    requires Family(codes, YearPrefix(year)) != {}
    ensures NextIssueNo(codes, year).Success?
    ensures var code := NextIssueNo(codes, year).value;
      var last := Greatest(Family(codes, YearPrefix(year)));
      WellFormed(code) && SequenceOf(code) == SequenceOf(last) + 1 && Below(last, code)
  {
    var prefix := YearPrefix(year);
    YearPrefixShape(year);
    var last := Greatest(Family(codes, prefix));
    var v := SequenceOf(last);
    assert Slice(last, 2, 6) == last[2..6];
    var newSeq := ZFill(Decimal(v + 1), 4);
    assert Pow10(4) == 10000;
    DecimalFits(v + 1, 4);
    ZFillValue(Decimal(v + 1), 4);
    var code := NextIssueNo(codes, year).value;
    assert code == prefix + newSeq + "0";
    assert code[2..6] == newSeq;
    BelowLargerSequence(prefix, last, newSeq);
  }

  /** The first code of a year is well-formed and new to the table. */
  lemma FirstIssueNo(codes: set<string>, year: nat)
    requires 1000 <= year <= 9999
    requires Family(codes, YearPrefix(year)) == {}
    ensures NextIssueNo(codes, year).Success?
    ensures var code := NextIssueNo(codes, year).value;
      WellFormed(code) && code !in codes
    ensures forall c :: c in codes ==> !StartsWith(c, YearPrefix(year))
  {
    var prefix := YearPrefix(year);
    YearPrefixShape(year);
    var code := NextIssueNo(codes, year).value;
    assert code == prefix + "00010";
    assert WellFormed(code);
    forall c | c in codes
      ensures !StartsWith(c, prefix) && c != code
    {
      assert c !in Family(codes, prefix);
    }
  }

  /** With every code of the year well-formed and below sequence 9999, the
      assigned code is well-formed, sorts above every code of the year, has a
      larger sequence than each of them, and is not in the table yet. */
  lemma IssueNoFresh(codes: set<string>, year: nat)
    requires 1000 <= year <= 9999
    requires SequencesBelow(codes, year, 9999)
    ensures NextIssueNo(codes, year).Success?
    ensures var code := NextIssueNo(codes, year).value;
      WellFormed(code) && code !in codes &&
      forall c :: c in codes && StartsWith(c, YearPrefix(year)) ==> Below(c, code) && SequenceOf(c) < SequenceOf(code)
  {
    var prefix := YearPrefix(year);
    YearPrefixShape(year);
    var family := Family(codes, prefix);
    var code := NextIssueNo(codes, year).value;
    if family == {} {
      FirstIssueNo(codes, year);
    } else {
      IssueNoSequence(codes, year);
      var last := Greatest(family);
      forall c | c in codes && StartsWith(c, prefix)
        ensures Below(c, code) && SequenceOf(c) < SequenceOf(code)
      {
        if c != last {
          BelowTransitive(c, last, code);
          SequenceMonotone(c, last, prefix);
        }
      }
      forall c | c in codes
        ensures c != code
      {
        if StartsWith(c, prefix) {
          BelowIrreflexive(c);
        }
      }
    }
  }

  /** At sequence 9999 the next sequence has five digits, which `zfill(4)`
      leaves as they are. */
  lemma OverflowCode(codes: set<string>, year: nat)
    requires 1000 <= year <= 9999
    requires Family(codes, YearPrefix(year)) != {}
    requires WellFormed(Greatest(Family(codes, YearPrefix(year))))
    requires SequenceOf(Greatest(Family(codes, YearPrefix(year)))) == 9999
    ensures NextIssueNo(codes, year) == Success(YearPrefix(year) + "10000" + "0")
  {
    var last := Greatest(Family(codes, YearPrefix(year)));
    assert Slice(last, 2, 6) == last[2..6];
    assert Decimal(10000) == "10000";
  }

  /** At sequence 9999 `zfill` does not cut: the assigned code has eight
      characters, one more than the column holds. It sorts below the greatest
      code of the year, so the next blank save is assigned the same code
      again and overwrites the order stored under it. */
  lemma IssueNoOverflow(codes: set<string>, year: nat)
    requires 1000 <= year <= 9999
    requires Family(codes, YearPrefix(year)) != {}
    requires WellFormed(Greatest(Family(codes, YearPrefix(year))))
    requires SequenceOf(Greatest(Family(codes, YearPrefix(year)))) == 9999
    ensures NextIssueNo(codes, year).Success?
    ensures var code := NextIssueNo(codes, year).value;
      |code| == CodeLength + 1 && NextIssueNo(codes + {code}, year) == Success(code)
  {
    var prefix := YearPrefix(year);
    YearPrefixShape(year);
    OverflowCode(codes, year);
    var family := Family(codes, prefix);
    var last := Greatest(family);
    var code := prefix + "10000" + "0";
    OverflowBelow(prefix, last);
    var family' := Family(codes + {code}, prefix);
    FamilyAdd(codes, prefix, code);
    GreatestIs(family', last);
    OverflowCode(codes + {code}, year);
  }

  /** The eight-character overflow code sorts below the year's code with
      sequence 9999. */
  lemma OverflowBelow(prefix: string, last: string)
    requires |prefix| == 2 && WellFormed(last) && StartsWith(last, prefix) && SequenceOf(last) == 9999
    ensures Below(prefix + "10000" + "0", last)
  {
    var code := prefix + "10000" + "0";
    assert Decimal(9999) == "9999";
    ParseOrder(last[2..6], "9999");
    assert last == prefix + last[2..] && code == prefix + code[2..];
    assert code[2..][0] == '1' && last[2..][0] == '9';
    assert Below(code[2..], last[2..]);
    BelowCommonPrefix(prefix, code[2..], last[2..]);
  }

  /** Two orders saved one after the other in one year get consecutive
      sequences, the second code sorting above the first. */
  lemma ConsecutiveIssueNos(codes: set<string>, year: nat)
    requires 1000 <= year <= 9999
    requires SequencesBelow(codes, year, 9998)
    ensures NextIssueNo(codes, year).Success?
    ensures var first := NextIssueNo(codes, year).value;
      var second := NextIssueNo(codes + {first}, year);
      WellFormed(first) && second.Success? && WellFormed(second.value) &&
      SequenceOf(second.value) == SequenceOf(first) + 1 && Below(first, second.value)
  {
    var prefix := YearPrefix(year);
    YearPrefixShape(year);
    IssueNoFresh(codes, year);
    var first := NextIssueNo(codes, year).value;
    var family := Family(codes, prefix);
    if family == {} {
      assert first[2..6] == Zeros(3) + Decimal(1);
      ParseLeadingZeros(3, Decimal(1));
    } else {
      IssueNoSequence(codes, year);
    }
    assert SequenceOf(first) < 9999;
    var codes' := codes + {first};
    var family' := Family(codes', prefix);
    FamilyAdd(codes, prefix, first);
    GreatestIs(family', first);
    IssueNoSequence(codes', year);
  }

  /** The order table: each order stored under its own `issue_no`. */
  class OrderStore {
    var orders: map<string, Order>

    ghost predicate Valid()
      reads this
    {
      KeysMatch(orders)
    }

    constructor ()
      ensures Valid() && orders == map[]
    {
      orders := map[];
    }

    /** `Order.save`: an order with a blank `issue_no` is numbered first, a
        given code is kept; the order is then written under its code,
        replacing any row with that code. `year` is the current year, which
        the source reads from the clock. */
    method Save(o: Order, year: nat) returns (r: Result<string, SaveError>)
      requires Valid()
      modifies this
      ensures Valid()
      ensures o.issueNo != "" ==> r == Success(o.issueNo)
      ensures o.issueNo == "" ==> r == NextIssueNo(old(orders).Keys, year)
      ensures r.Success? ==> orders == old(orders)[r.value := o.(issueNo := r.value)]
      ensures r.Failure? ==> orders == old(orders)
      ensures forall c :: c in old(orders) && !(r.Success? && c == r.value) ==> c in orders && orders[c] == old(orders)[c]
      ensures o.issueNo == "" && 1000 <= year <= 9999 &&
              SequencesBelow(old(orders).Keys, year, 9999)
              ==> r.Success? && r.value !in old(orders)
    {
      var code := o.issueNo;
      if code == "" {
        var next := NextIssueNo(orders.Keys, year);
        if 1000 <= year <= 9999 && SequencesBelow(orders.Keys, year, 9999) {
          IssueNoFresh(orders.Keys, year);
        }
        if next.Failure? {
          return next;
        }
        code := next.value;
      }
      var stored := o.(issueNo := code);
      KeysMatchUpdate(orders, stored);
      orders := orders[code := stored];
      r := Success(code);
    }
  }
}
