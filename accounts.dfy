/**
  The account layer of the budget reconciler: checking that a GnuCash book
  has the accounts the envelope-budgeting scheme relies on, and pairing each
  regular expense account with the budget account of the same path.

  An account is identified by its full name, the names of its ancestors
  below the root joined with '.'.  A book is given as the sequence of the
  root's descendants (`get_descendants`); the root itself is not in it.
*/
module Accounts {
  import opened Wrappers
  import Paragraphs

  // ---------------------------------------------------------------------
  // Accounts and books
  // ---------------------------------------------------------------------

  /** GnuCash account types; the ones this layer tests for are Asset, Liability and Expense. */
  datatype AccType = Root | Bank | Cash | Asset | Liability | Equity | Income | Expense | Other

  datatype Account = Account(fullName: string, typ: AccType, placeholder: bool)

  /** The accounts below the root of a book, in the order `get_descendants` lists them. */
  type Book = seq<Account>

  /** No two accounts of the book share a full name. */
  predicate WellFormed(book: Book) {
    forall i, j :: 0 <= i < j < |book| ==> book[i].fullName != book[j].fullName
  }

  /** `root_account.lookup_by_full_name(name)`: the account with that full name, or None. */
  function Lookup(book: Book, name: string): (r: Option<Account>)
    ensures r.Some? ==> r.value in book && r.value.fullName == name
    ensures r.None? ==> forall a :: a in book ==> a.fullName != name
  {
    if book == [] then None
    else if book[0].fullName == name then Some(book[0])
    else Lookup(book[1..], name)
  }

  /** In a well-formed book, looking an account up by its full name finds that very account. */
  lemma {:induction false} LookupFinds(book: Book, a: Account)
    requires WellFormed(book) && a in book
    ensures Lookup(book, a.fullName) == Some(a)
  {
    if book[0] != a {
      var j :| 0 <= j < |book| && book[j] == a;
      assert book[0].fullName != book[j].fullName;
      assert a in book[1..] by { assert book[1..][j - 1] == a; }
      assert WellFormed(book[1..]) by {
        forall i, k | 0 <= i < k < |book[1..]| ensures book[1..][i].fullName != book[1..][k].fullName {
          assert book[1..][i] == book[i + 1] && book[1..][k] == book[k + 1];
        }
      }
      LookupFinds(book[1..], a);
    }
  }

  // ---------------------------------------------------------------------
  // Mandatory structure (core.py:55-72)
  // ---------------------------------------------------------------------

  /** `InputException`, carrying what its message names; and Python's `KeyError`. */
  datatype Error =
    | InputException(accType: string, shownName: string)
    | KeyError(key: string)

  /** `name.replace('.', ':')`: the full name as GnuCash shows it. */
  function DotsToColons(name: string): (r: string)
    ensures |r| == |name| && '.' !in r
    ensures forall i :: 0 <= i < |name| && name[i] != '.' ==> r[i] == name[i]
    ensures forall i :: 0 <= i < |name| && name[i] == '.' ==> r[i] == ':'
  {
    seq(|name|, i requires 0 <= i < |name| => if name[i] == '.' then ':' else name[i])
  }

  /** Reading a shown name back. */
  function ColonsToDots(shown: string): string {
    seq(|shown|, i requires 0 <= i < |shown| => if shown[i] == ':' then '.' else shown[i])
  }

  /** A full name without colons is recovered from the name shown in the message. */
  lemma {:induction false} ShownNameRecoverable(name: string)
    requires ':' !in name
    ensures ColonsToDots(DotsToColons(name)) == name
  {
    var r := ColonsToDots(DotsToColons(name));
    forall i | 0 <= i < |name| ensures r[i] == name[i] {
      assert name[i] != ':' by { assert name[i] in name; }
    }
  }

  /**
    The pieces of the exception's template, with their literal indentation;
    the literals are split into short runs only to keep the proofs about
    them small.
  */
  const MessageOpening: string :=
    "\n            " + "The GnuCash file " + "you provided " + "does not define an "
  const MessageMiddle: string := " account\n            named '"
  const MessageTail: string :=
    "', but it is " + "required for " + "GnuCash Autocomplete " + "to work." + "\n            "

  /** The text of the exception before the account name. */
  function MessageHead(accType: string): string {
    MessageOpening + accType + MessageMiddle
  }

  /** The template itself holds no BEL and no Mark. */
  lemma {:induction false} TemplatePlain()
    ensures Paragraphs.Bell !in MessageOpening && Paragraphs.Mark !in MessageOpening
    ensures Paragraphs.Bell !in MessageMiddle && Paragraphs.Mark !in MessageMiddle
    ensures Paragraphs.Bell !in MessageTail && Paragraphs.Mark !in MessageTail
  {
    OpeningNoBell();
    OpeningNoMark();
    MiddlePlain();
    TailNoBell();
    TailNoMark();
  }

  lemma {:induction false} OpeningNoBell()
    ensures Paragraphs.Bell !in MessageOpening
  {
    assert Paragraphs.Bell !in "\n            ";
    assert Paragraphs.Bell !in "The GnuCash file ";
    assert Paragraphs.Bell !in "you provided ";
    assert Paragraphs.Bell !in "does not define an ";
  }

  lemma {:induction false} OpeningNoMark()
    ensures Paragraphs.Mark !in MessageOpening
  {
    assert Paragraphs.Mark !in "\n            ";
    assert Paragraphs.Mark !in "The GnuCash file ";
    assert Paragraphs.Mark !in "you provided ";
    assert Paragraphs.Mark !in "does not define an ";
  }

  lemma {:induction false} MiddlePlain()
    ensures Paragraphs.Bell !in MessageMiddle && Paragraphs.Mark !in MessageMiddle
  {
  }

  lemma {:induction false} TailNoBell()
    ensures Paragraphs.Bell !in MessageTail
  {
    assert Paragraphs.Bell !in "', but it is ";
    assert Paragraphs.Bell !in "required for ";
    assert Paragraphs.Bell !in "GnuCash Autocomplete ";
    assert Paragraphs.Bell !in "to work.";
    assert Paragraphs.Bell !in "\n            ";
  }

  lemma {:induction false} TailNoMark()
    ensures Paragraphs.Mark !in MessageTail
  {
    assert Paragraphs.Mark !in "', but it is ";
    assert Paragraphs.Mark !in "required for ";
    assert Paragraphs.Mark !in "GnuCash Autocomplete ";
    assert Paragraphs.Mark !in "to work.";
    assert Paragraphs.Mark !in "\n            ";
  }

  /** The `paragraphs`-formatted text of the exception. */
  function Message(e: Error): string {
    match e
    case InputException(accType, shownName) => Paragraphs.Paragraphs(MessageHead(accType) + shownName + MessageTail)
    case KeyError(key) => key
  }

  /**
    The message of an `InputException` shows the account type and the
    account name: only whitespace differs from the template filled in.
  */
  lemma {:induction false} MessageNamesAccount(accType: string, shownName: string)
    requires Paragraphs.Bell !in accType + shownName && Paragraphs.Mark !in accType + shownName
    ensures Paragraphs.Visible(Message(InputException(accType, shownName))) ==
      Paragraphs.Visible(MessageHead(accType)) + Paragraphs.Visible(shownName) + Paragraphs.Visible(MessageTail)
  {
    var head, tail := MessageHead(accType), MessageTail;
    var u := head + shownName + tail;
    assert u == MessageOpening + accType + MessageMiddle + shownName + MessageTail;
    TemplatePlain();
    Paragraphs.ParagraphsVisible(u);
    Paragraphs.VisibleConcat(head + shownName, tail);
    Paragraphs.VisibleConcat(head, shownName);
  }

  /** `acc_type2const[acc_type]`, or None where the dictionary raises `KeyError`. */
  function TypeConst(accType: string): (r: Option<AccType>)
    ensures r.Some? <==> accType in {"asset", "expense", "liability"}
    ensures r.Some? ==> r.value in {Asset, Expense, Liability}
  {
    if accType == "asset" then Some(Asset)
    else if accType == "expense" then Some(Expense)
    else if accType == "liability" then Some(Liability)
    else None
  }

  /** Different type names never stand for the same type. */
  lemma {:induction false} TypeConstDistinct(n1: string, n2: string)
    requires TypeConst(n1).Some? && TypeConst(n1) == TypeConst(n2)
    ensures n1 == n2
  {
  }

  /** The book has an account at full path `name` and it is of type `t`. */
  predicate HasAccount(book: Book, name: string, t: AccType) {
    exists a :: a in book && a.fullName == name && a.typ == t
  }

  /** `_ensure_account_present(root_account, name, accType)`. */
  function EnsureAccountPresent(book: Book, name: string, accType: string): (r: Outcome<Error>)
    ensures r.Pass? <==>
      Lookup(book, name).Some? && TypeConst(accType).Some? && Lookup(book, name).value.typ == TypeConst(accType).value
    ensures r.Fail? && Lookup(book, name).None? ==> r.error == InputException(accType, DotsToColons(name))
    ensures r.Fail? && TypeConst(accType).Some? ==> r.error == InputException(accType, DotsToColons(name))
    ensures r.Fail? && Lookup(book, name).Some? && TypeConst(accType).None? ==> r.error == KeyError(accType)
  {
    match Lookup(book, name)
    case None => Fail(InputException(accType, DotsToColons(name)))
    case Some(a) =>
      match TypeConst(accType)
      case None => Fail(KeyError(accType))
      case Some(t) => if a.typ == t then Pass else Fail(InputException(accType, DotsToColons(name)))
  }

  /** In a well-formed book a check of a known type passes exactly when the account is there with that type. */
  lemma {:induction false} EnsureAccountPresentExact(book: Book, name: string, accType: string, t: AccType)
    requires WellFormed(book) && TypeConst(accType) == Some(t)
    ensures EnsureAccountPresent(book, name, accType).Pass? <==> HasAccount(book, name, t)
  {
    if HasAccount(book, name, t) {
      var a :| a in book && a.fullName == name && a.typ == t;
      LookupFinds(book, a);
    }
  }

  /** One account the scheme needs: its full name, its type and the name the check gives that type. */
  datatype Requirement = Requirement(name: string, typeName: string, typ: AccType)

  /** The four accounts `_ensure_mandatory_structure` checks, in the order it checks them. */
  const Mandatory: seq<Requirement> := [
    Requirement("Expenses", "expense", Expense),
    Requirement("Budget", "asset", Asset),
    Requirement("Budget.Budgeted Funds", "liability", Liability),
    Requirement("Budget.Available to Budget", "asset", Asset)
  ]

  /** The account looked up at the required path exists and has the required type. */
  predicate Meets(book: Book, req: Requirement) {
    Lookup(book, req.name).Some? && Lookup(book, req.name).value.typ == req.typ
  }

  /** Requirement `k` is the first one the book does not meet. */
  predicate FirstUnmet(book: Book, k: nat)
    requires k < |Mandatory|
  {
    !Meets(book, Mandatory[k]) && forall j :: 0 <= j < k ==> Meets(book, Mandatory[j])
  }

  /** The exception reported for an unmet requirement. */
  function Complaint(req: Requirement): Error {
    InputException(req.typeName, DotsToColons(req.name))
  }

  /** `_ensure_mandatory_structure(root_account)`. */
  function EnsureMandatoryStructure(book: Book): (r: Outcome<Error>)
    ensures r.Pass? <==> forall k :: 0 <= k < |Mandatory| ==> Meets(book, Mandatory[k])
    ensures r.Fail? ==>
      exists k :: 0 <= k < |Mandatory| && FirstUnmet(book, k) && r.error == Complaint(Mandatory[k])
  {
    assert Mandatory[0] == Requirement("Expenses", "expense", Expense);
    assert Mandatory[1] == Requirement("Budget", "asset", Asset);
    assert Mandatory[2] == Requirement("Budget.Budgeted Funds", "liability", Liability);
    assert Mandatory[3] == Requirement("Budget.Available to Budget", "asset", Asset);
    var expenses := EnsureAccountPresent(book, "Expenses", "expense");
    if expenses.Fail? then expenses
    else
      var budget := EnsureAccountPresent(book, "Budget", "asset");
      if budget.Fail? then budget
      else
        var funds := EnsureAccountPresent(book, "Budget.Budgeted Funds", "liability");
        if funds.Fail? then funds
        else
          var available := EnsureAccountPresent(book, "Budget.Available to Budget", "asset");
          if available.Fail? then available
          else Pass
  }

  /** In a well-formed book the structure is accepted exactly when all four accounts exist with their types. */
  lemma {:induction false} MandatoryStructureExact(book: Book)
    requires WellFormed(book)
    ensures EnsureMandatoryStructure(book).Pass? <==>
      forall k :: 0 <= k < |Mandatory| ==> HasAccount(book, Mandatory[k].name, Mandatory[k].typ)
  {
    forall k | 0 <= k < |Mandatory|
      ensures Meets(book, Mandatory[k]) <==> HasAccount(book, Mandatory[k].name, Mandatory[k].typ)
    {
      var req := Mandatory[k];
      EnsureAccountPresentExact(book, req.name, req.typeName, req.typ);
    }
  }

  // ---------------------------------------------------------------------
  // Regular accounts (core.py:75-83)
  // ---------------------------------------------------------------------

  const BudgetedFunds: string := "Budget.Budgeted Funds"
  const AvailableToBudget: string := "Budget.Available to Budget"

  /** `_is_regular_budget_acc`: an asset account that holds entries and is not one of the two control accounts. */
  predicate IsRegularBudgetAcc(a: Account) {
    a.fullName != BudgetedFunds && a.fullName != AvailableToBudget && !a.placeholder && a.typ == Asset
  }

  /** `_is_regular_expense_acc`: an expense account that holds entries. */
  predicate IsRegularExpenseAcc(a: Account) {
    !a.placeholder && a.typ == Expense
  }

  // ---------------------------------------------------------------------
  // Path rewriting (core.py:91)
  // ---------------------------------------------------------------------

  /** `re.sub(r"\ABudget", "Expenses", name)`: only a leading "Budget" is replaced. */
  function Rewrite(name: string): (r: string)
    ensures "Budget" <= name ==> "Expenses" <= r && r[8..] == name[6..]
    ensures !("Budget" <= name) ==> r == name
  {
    if "Budget" <= name then "Expenses" + name[6..] else name
  }

  /** The opposite rewrite, from an expense path to its budget path. */
  function Unrewrite(name: string): string {
    if "Expenses" <= name then "Budget" + name[8..] else name
  }

  /** Rewriting a budget path can be undone. */
  lemma {:induction false} UnrewriteRewrite(name: string)
    requires "Budget" <= name
    ensures Unrewrite(Rewrite(name)) == name
  {
    assert name == "Budget" + name[6..];
  }

  /** Two budget paths that rewrite to the same expense path are the same path. */
  lemma {:induction false} RewriteInjective(a: string, b: string)
    requires "Budget" <= a && "Budget" <= b && Rewrite(a) == Rewrite(b)
    ensures a == b
  {
    UnrewriteRewrite(a);
    UnrewriteRewrite(b);
  }

  // ---------------------------------------------------------------------
  // The expense-to-budget correspondence (core.py:86-95)
  // ---------------------------------------------------------------------

  /** `root_account.lookup_by_name("Budget").get_descendants()` when "Budget" is a top-level account. */
  function BudgetDescendants(book: Book): (r: seq<Account>)
    ensures forall a :: a in r <==> a in book && "Budget." <= a.fullName
  {
    if book == [] then []
    else (if "Budget." <= book[0].fullName then [book[0]] else []) + BudgetDescendants(book[1..])
  }

  /** `[a for a in accs if _is_regular_budget_acc(a)]`. */
  function RegularBudgetAccs(accs: seq<Account>): (r: seq<Account>)
    ensures forall a :: a in r <==> a in accs && IsRegularBudgetAcc(a)
  {
    if accs == [] then []
    else (if IsRegularBudgetAcc(accs[0]) then [accs[0]] else []) + RegularBudgetAccs(accs[1..])
  }

  /** The items of `budget2expense`: each budget account with the lookup of its rewritten path. */
  function BudgetToExpense(book: Book, budgetAccs: seq<Account>): (r: seq<(Account, Option<Account>)>)
    ensures |r| == |budgetAccs|
  {
    seq(|budgetAccs|, i requires 0 <= i < |budgetAccs| =>
      (budgetAccs[i], Lookup(book, Rewrite(budgetAccs[i].fullName))))
  }

  /**
    Each item keeps its budget account, and holds the account of the book at
    the rewritten path, or None exactly when the book has no account there.
  */
  lemma {:induction false} BudgetToExpenseItems(book: Book, budgetAccs: seq<Account>)
    ensures var r := BudgetToExpense(book, budgetAccs);
      && |r| == |budgetAccs|
      && (forall i :: 0 <= i < |r| ==> r[i].0 == budgetAccs[i])
      && (forall i :: 0 <= i < |r| && r[i].1.Some? ==>
            r[i].1.value in book && r[i].1.value.fullName == Rewrite(budgetAccs[i].fullName))
      && (forall i :: 0 <= i < |r| && r[i].1.None? ==>
            forall a :: a in book ==> a.fullName != Rewrite(budgetAccs[i].fullName))
  {
  }

  /**
    `{e: b for b, e in items if e and _is_regular_expense_acc(e)}`, taking the
    items in order, so that a later pair overrides an earlier one.
  */
  function Invert(items: seq<(Account, Option<Account>)>): (m: map<Account, Account>)
    ensures forall e :: e in m ==>
      IsRegularExpenseAcc(e) && exists i :: 0 <= i < |items| && items[i] == (m[e], Some(e))
    ensures forall i :: 0 <= i < |items| && items[i].1.Some? && IsRegularExpenseAcc(items[i].1.value) ==>
      items[i].1.value in m
  {
    if items == [] then map[]
    else
      var m := Invert(items[..|items| - 1]);
      var (b, e) := items[|items| - 1];
      if e.Some? && IsRegularExpenseAcc(e.value) then m[e.value := b] else m
  }

  /** `e` and `b` are a regular expense account and a regular budget account of the book at matching paths. */
  predicate Corresponds(book: Book, e: Account, b: Account) {
    && b in book && "Budget." <= b.fullName && IsRegularBudgetAcc(b)
    && e in book && IsRegularExpenseAcc(e)
    && e.fullName == Rewrite(b.fullName)
  }

  /**
    `_expense_to_budget_matching(root_account)`: every pair it holds corresponds,
    the expense account is the one the rewritten path looks up, and no budget
    account is paired twice.
  */
  function ExpenseToBudgetMatching(book: Book): (m: map<Account, Account>)
    requires Lookup(book, "Budget").Some?
    ensures forall e :: e in m ==> Corresponds(book, e, m[e]) && Lookup(book, e.fullName) == Some(e)
    ensures forall e :: e in m ==> m[e].fullName != BudgetedFunds && m[e].fullName != AvailableToBudget
    ensures forall e1, e2 :: e1 in m && e2 in m && m[e1] == m[e2] ==> e1 == e2
  {
    Invert(BudgetToExpense(book, RegularBudgetAccs(BudgetDescendants(book))))
  }

  /** Every corresponding pair of a well-formed book is in the correspondence. */
  lemma {:induction false} MatchingComplete(book: Book, e: Account, b: Account)
    requires Lookup(book, "Budget").Some? && WellFormed(book)
    requires Corresponds(book, e, b)
    ensures var m := ExpenseToBudgetMatching(book); e in m && m[e] == b
  {
    var accs := RegularBudgetAccs(BudgetDescendants(book));
    var items := BudgetToExpense(book, accs);
    var m := ExpenseToBudgetMatching(book);
    assert b in accs;
    var i :| 0 <= i < |accs| && accs[i] == b;
    LookupFinds(book, e);
    assert items[i] == (b, Some(e));
    assert e in m;
    var b' := m[e];
    assert Corresponds(book, e, b');
    RewriteInjective(b.fullName, b'.fullName);
    var p :| 0 <= p < |book| && book[p] == b;
    var q :| 0 <= q < |book| && book[q] == b';
    assert p == q;
  }

  /** In a well-formed book the correspondence holds exactly the corresponding pairs. */
  lemma {:induction false} MatchingExact(book: Book, e: Account, b: Account)
    requires Lookup(book, "Budget").Some? && WellFormed(book)
    ensures var m := ExpenseToBudgetMatching(book); (e in m && m[e] == b) <==> Corresponds(book, e, b)
  {
    if Corresponds(book, e, b) {
      MatchingComplete(book, e, b);
    }
  }

  /** A budget account without a regular expense account at its rewritten path is left out, silently. */
  lemma {:induction false} UnmatchedBudgetAccountAbsent(book: Book, b: Account)
    requires Lookup(book, "Budget").Some?
    requires Lookup(book, Rewrite(b.fullName)).None? || !IsRegularExpenseAcc(Lookup(book, Rewrite(b.fullName)).value)
    ensures b !in ExpenseToBudgetMatching(book).Values
  {
  }

  // ---------------------------------------------------------------------
  // Start of a run (core.py:134-137)
  // ---------------------------------------------------------------------

  /**
    The account work `add_budget_entries` does before it touches any
    transaction: validate the structure, then compute the correspondence.
  */
  function PrepareRun(book: Book): (r: Result<map<Account, Account>, Error>)
    ensures r.Failure? <==> EnsureMandatoryStructure(book).Fail?
    ensures r.Failure? ==> r.error == EnsureMandatoryStructure(book).error && r.error.InputException?
    ensures r.Success? ==> Lookup(book, "Budget").Some? && r.value == ExpenseToBudgetMatching(book)
    ensures r.Success? ==> forall e :: e in r.value ==> Corresponds(book, e, r.value[e])
  {
    var checked := EnsureMandatoryStructure(book);
    if checked.Fail? then Failure(checked.error)
    else
      assert Meets(book, Mandatory[1]);
      Success(ExpenseToBudgetMatching(book))
  }

  // ---------------------------------------------------------------------
  // Example books (tests/test_core.py:47-63)
  // ---------------------------------------------------------------------

  /** The book the test suite builds: Expenses, and Budget holding its two control accounts. */
  function MinimalBook(): Book {
    [ Account("Expenses", Expense, false),
      Account("Budget", Asset, false),
      Account("Budget.Budgeted Funds", Liability, false),
      Account("Budget.Available to Budget", Asset, false) ]
  }

  /** The minimal book passes validation and, having no regular budget account, pairs nothing. */
  lemma {:induction false} MinimalBookAccepted()
    ensures EnsureMandatoryStructure(MinimalBook()) == Pass
    ensures PrepareRun(MinimalBook()) == Success(map[])
  {
    MinimalStructure();
    MinimalMatching();
  }

  lemma {:induction false} MinimalStructure()
    ensures EnsureMandatoryStructure(MinimalBook()) == Pass
  {
  }

  lemma {:induction false} MinimalMatching()
    ensures Lookup(MinimalBook(), "Budget").Some?
    ensures ExpenseToBudgetMatching(MinimalBook()) == map[]
  {
    var book := MinimalBook();
    assert Lookup(book, "Budget") == Some(book[1]);
    MinimalBudgetDescendants();
    MinimalNoRegular();
  }

  lemma {:induction false} MinimalNoRegular()
    ensures RegularBudgetAccs(MinimalBook()[2..]) == []
  {
  }

  lemma {:induction false} MinimalBudgetDescendants()
    ensures BudgetDescendants(MinimalBook()) == MinimalBook()[2..]
  {
    var book := MinimalBook();
    assert book[2..][1..] == book[3..];
    assert book[3..][1..] == [];
    assert BudgetDescendants(book[3..]) == book[3..];
    assert BudgetDescendants(book[2..]) == book[2..];
    assert book[1..][1..] == book[2..];
    assert !("Budget." <= book[1].fullName);
    assert BudgetDescendants(book[1..]) == book[2..];
    assert !("Budget." <= book[0].fullName) by {
      assert book[0].fullName[0] == 'E';
    }
  }

  /** Without "Budget.Available to Budget" the run stops, naming that account with colons. */
  lemma {:induction false} MissingAvailableRejected()
    ensures EnsureMandatoryStructure(MinimalBook()[..3]) ==
      Fail(InputException("asset", "Budget:Available to Budget"))
    ensures PrepareRun(MinimalBook()[..3]).Failure?
  {
    MissingAvailableFails();
    ShownAvailable();
  }

  lemma {:induction false} MissingAvailableFails()
    ensures EnsureMandatoryStructure(MinimalBook()[..3]) ==
      Fail(InputException("asset", DotsToColons("Budget.Available to Budget")))
  {
    var book := MinimalBook()[..3];
    assert Lookup(book, "Expenses") == Some(book[0]);
    assert Lookup(book, "Budget") == Some(book[1]) by {
      assert |book[0].fullName| != |"Budget"|;
      assert book[1..][0] == book[1];
    }
    assert Lookup(book, "Budget.Budgeted Funds") == Some(book[2]) by {
      assert |book[0].fullName| != |"Budget.Budgeted Funds"|;
      assert |book[1].fullName| != |"Budget.Budgeted Funds"|;
      assert book[1..][1..][0] == book[2];
    }
    assert Lookup(book, "Budget.Available to Budget") == None by {
      assert forall a :: a in book ==> |a.fullName| != |"Budget.Available to Budget"|;
    }
  }

  lemma {:induction false} ShownAvailable()
    ensures DotsToColons("Budget.Available to Budget") == "Budget:Available to Budget"
  {
  }

  /** A mistyped control account is the one reported, although a later one is missing too. */
  lemma {:induction false} FirstFailureReported()
    ensures var book := [MinimalBook()[0], MinimalBook()[1], Account("Budget.Budgeted Funds", Asset, false)];
      EnsureMandatoryStructure(book) == Fail(InputException("liability", "Budget:Budgeted Funds"))
  {
    assert DotsToColons("Budget.Budgeted Funds") == "Budget:Budgeted Funds";
  }

  /**
    A budget for food beside the food expenses, and a budget for rent with no
    expense account.  The parent account `Expenses` is left out to keep the
    book small: lookup goes by full name, so it plays no part in the pairing.
  */
  function FoodBook(): Book {
    [ Account("Budget", Asset, false),
      Account("Budget.Food", Asset, false),
      Account("Expenses.Food", Expense, false),
      Account("Budget.Rent", Asset, false) ]
  }

  /** Food pairs up; the rent budget, lacking an expense account, is left out without complaint. */
  lemma {:induction false} FoodMatched()
    ensures ExpenseToBudgetMatching(FoodBook()) == map[FoodBook()[2] := FoodBook()[1]]
  {
    var book := FoodBook();
    FoodLookupBudget();
    FoodBudgetDescendants();
    FoodRegular();
    FoodItems();
    InvertTwo(book[1], book[2], book[3]);
  }

  lemma {:induction false} FoodLookupBudget()
    ensures Lookup(FoodBook(), "Budget") == Some(FoodBook()[0])
  {
  }

  lemma {:induction false} FoodBudgetDescendants()
    ensures BudgetDescendants(FoodBook()) == FoodBook()[1..2] + FoodBook()[3..]
  {
    var book := FoodBook();
    assert book[3..][1..] == [];
    assert BudgetDescendants(book[3..]) == book[3..];
    assert book[2..][1..] == book[3..];
    assert !("Budget." <= book[2].fullName) by {
      assert book[2].fullName[0] == 'E';
    }
    assert BudgetDescendants(book[2..]) == book[3..];
    assert book[1..][1..] == book[2..];
    assert BudgetDescendants(book[1..]) == book[1..2] + book[3..];
    assert !("Budget." <= book[0].fullName);
  }

  lemma {:induction false} FoodRegular()
    ensures RegularBudgetAccs(FoodBook()[1..2] + FoodBook()[3..]) == FoodBook()[1..2] + FoodBook()[3..]
  {
    var book := FoodBook();
    assert (book[1..2] + book[3..])[1..] == book[3..];
    assert book[3..][1..] == [];
    assert RegularBudgetAccs(book[3..]) == book[3..];
  }

  lemma {:induction false} FoodItems()
    ensures BudgetToExpense(FoodBook(), FoodBook()[1..2] + FoodBook()[3..]) ==
      [(FoodBook()[1], Some(FoodBook()[2])), (FoodBook()[3], None)]
  {
    FoodRewrite();
    FoodLookupExpense();
    RentLookupExpense();
  }

  lemma {:induction false} FoodRewrite()
    ensures Rewrite("Budget.Food") == "Expenses.Food" && Rewrite("Budget.Rent") == "Expenses.Rent"
  {
  }

  lemma {:induction false} FoodLookupExpense()
    ensures Lookup(FoodBook(), "Expenses.Food") == Some(FoodBook()[2])
  {
    var book := FoodBook();
    assert book[0].fullName != "Expenses.Food" by {
      assert |book[0].fullName| != |"Expenses.Food"|;
    }
    assert book[1].fullName != "Expenses.Food" by {
      assert book[1].fullName[0] != "Expenses.Food"[0];
    }
    assert book[1..][1..] == book[2..];
  }

  lemma {:induction false} RentLookupExpense()
    ensures Lookup(FoodBook(), "Expenses.Rent") == None
  {
    var book := FoodBook();
    assert "Expenses.Rent" != book[2].fullName by {
      assert "Expenses.Rent"[9] != book[2].fullName[9];
    }
  }

  /** A dictionary built from one matched and one unmatched item holds the matched pair alone. */
  lemma {:induction false} InvertTwo(b1: Account, e1: Account, b2: Account)
    requires IsRegularExpenseAcc(e1)
    ensures Invert([(b1, Some(e1)), (b2, None)]) == map[e1 := b1]
  {
    var items := [(b1, Some(e1)), (b2, None)];
    assert items[..1] == [(b1, Some(e1))];
    assert items[..1][..0] == [];
  }
}
