/**
 * The account-list store (src/stores/accounts.ts): an in-memory sequence of
 * account records with add / delete / update by id, the validation rule,
 * the label parser and formatter, and saving to and loading from the
 * browser's local storage.
 */
module Accounts {
  import opened Wrappers
  import opened Text
  import opened AccountModel

  // ---------------------------------------------------------------------
  // Validation (validateAccount)
  // ---------------------------------------------------------------------

  /**
   * validateAccount: recomputes the two error flags and `isValid` from
   * `login`, `password` and `accountType`, keeping every other field. The
   * boolean the source returns is `Validate(a).isValid`. The body tests
   * `!s.trim()` as `Trim(s) == []`; the contract states it as `AllWhitespace`.
   */
  function Validate(a: Account): (r: Account)
    ensures r.(isValid := a.isValid, errors := a.errors) == a
    ensures r.errors.login <==> AllWhitespace(a.login)
    ensures r.errors.password <==>
              a.accountType == Local && (a.password.None? || AllWhitespace(a.password.value))
    ensures r.isValid <==> !r.errors.login && !r.errors.password
  {
    var errors := FieldErrors(
      login := Trim(a.login) == [],
      password := a.accountType == Local && (a.password.None? || Trim(a.password.value) == []));
    a.(errors := errors, isValid := !errors.login && !errors.password)
  }

  /** A local account is valid exactly when both login and password hold text. */
  lemma LocalValidity(a: Account)
    requires a.accountType == Local
    ensures Validate(a).isValid <==>
              !AllWhitespace(a.login) && a.password.Some? && !AllWhitespace(a.password.value)
  {
  }

  /**
   * An LDAP account never has a password error, and its password has no
   * bearing on anything validation computes.
   */
  lemma LdapIgnoresPassword(a: Account, p: Option<string>)
    requires a.accountType == LDAP
    ensures !Validate(a).errors.password
    ensures Validate(a).isValid <==> !AllWhitespace(a.login)
    ensures Validate(a.(password := p)) == Validate(a).(password := p)
  {
  }

  /** Validation reads only login, password and type: stored flags are never trusted. */
  lemma ValidateIgnoresDerived(a: Account, b: Account)
    requires a.login == b.login && a.password == b.password && a.accountType == b.accountType
    ensures Validate(a).errors == Validate(b).errors
    ensures Validate(a).isValid == Validate(b).isValid
  {
  }

  /** Validating a validated record changes nothing. */
  lemma ValidateIdempotent(a: Account)
    ensures Validate(Validate(a)) == Validate(a)
  {
  }

  // ---------------------------------------------------------------------
  // Labels (parseLabels, labelsToString)
  // ---------------------------------------------------------------------

  const Separator: char := ';'

  /** A label text the parser can produce: non-empty, trimmed, without `;`. */
  predicate IsCleanLabel(l: Label) {
    l.text != [] && IsTrimmed(l.text) && Separator !in l.text
  }

  predicate AllClean(ls: seq<Label>) {
    forall i :: 0 <= i < |ls| ==> IsCleanLabel(ls[i])
  }

  predicate NoSeparator(parts: seq<string>) {
    forall j :: 0 <= j < |parts| ==> Separator !in parts[j]
  }

  /** The `.map(trim).filter(non-empty).map(text => {text})` chain over split pieces. */
  function CleanSegments(parts: seq<string>): (ls: seq<Label>)
    ensures |ls| <= |parts|
    ensures forall i :: 0 <= i < |ls| ==> ls[i].text != [] && IsTrimmed(ls[i].text)
    ensures NoSeparator(parts) ==> AllClean(ls)
  {
    if parts == [] then []
    else
      var t := Trim(parts[0]);
      TrimKeepsAbsent(parts[0], Separator);
      (if t == [] then [] else [Label(t)]) + CleanSegments(parts[1..])
  }

  /**
   * parseLabels: the trimmed, non-empty `;`-separated pieces of `s`, in
   * order; blank input gives no labels.
   */
  function ParseLabels(s: string): (ls: seq<Label>)
    ensures AllWhitespace(s) ==> ls == []
    ensures AllClean(ls)
    ensures |ls| <= |Split(s, Separator)|
  {
    if Trim(s) == [] then [] else CleanSegments(Split(s, Separator))
  }

  /** The texts of the labels, in order. */
  function Texts(ls: seq<Label>): (ts: seq<string>)
    ensures |ts| == |ls| && forall i :: 0 <= i < |ls| ==> ts[i] == ls[i].text
  {
    seq(|ls|, i requires 0 <= i < |ls| => ls[i].text)
  }

  /**
   * labelsToString: the label texts joined by `;`. For clean labels it
   * starts with the first text, ends with the last, and so neither starts
   * nor ends with the separator.
   */
  function LabelsToString(ls: seq<Label>): (r: string)
    ensures ls == [] ==> r == []
    ensures ls != [] ==>
              |ls[0].text| <= |r| && r[..|ls[0].text|] == ls[0].text &&
              |ls[|ls| - 1].text| <= |r| && r[|r| - |ls[|ls| - 1].text|..] == ls[|ls| - 1].text
    ensures ls != [] && AllClean(ls) ==> r != [] && r[0] != Separator && r[|r| - 1] != Separator
  {
    CleanJoinEnds(ls);
    JoinWith(Texts(ls), Separator)
  }

  lemma CleanJoinEnds(ls: seq<Label>)
    ensures ls != [] ==>
              var r := JoinWith(Texts(ls), Separator); var first := ls[0].text; var last := ls[|ls| - 1].text;
              |first| <= |r| && r[..|first|] == first && |last| <= |r| && r[|r| - |last|..] == last
    ensures ls != [] && AllClean(ls) ==>
              var r := JoinWith(Texts(ls), Separator);
              r != [] && r[0] == ls[0].text[0] && r[|r| - 1] == ls[|ls| - 1].text[|ls[|ls| - 1].text| - 1]
  {
    if ls != [] {
      var r := JoinWith(Texts(ls), Separator);
      JoinWithStart(Texts(ls), Separator);
      JoinWithEnd(Texts(ls), Separator);
      if AllClean(ls) {
        var first := ls[0].text;
        var last := ls[|ls| - 1].text;
        assert r[0] == r[..|first|][0];
        assert r[|r| - 1] == r[|r| - |last|..][|last| - 1];
      }
    }
  }

  lemma {:induction false} CleanSegmentsAppend(x: seq<string>, y: seq<string>)
    ensures CleanSegments(x + y) == CleanSegments(x) + CleanSegments(y)
  {
    if x != [] {
      assert x + y == [x[0]] + (x[1..] + y);
      assert x == [x[0]] + x[1..];
      CleanSegmentsCons(x[0], x[1..] + y);
      CleanSegmentsCons(x[0], x[1..]);
      CleanSegmentsAppend(x[1..], y);
    } else {
      assert x + y == y;
    }
  }

  lemma CleanSegmentsCons(p: string, rest: seq<string>)
    ensures CleanSegments([p] + rest) ==
              (if Trim(p) == [] then [] else [Label(Trim(p))]) + CleanSegments(rest)
  {
    assert ([p] + rest)[1..] == rest;
  }

  lemma CleanSegmentsSingle(s: string)
    ensures CleanSegments([s]) == if Trim(s) == [] then [] else [Label(Trim(s))]
  {
    assert [s][1..] == [];
  }

  /** The blank-input guard of parseLabels is subsumed by the pipeline itself. */
  lemma BlankGuardRedundant(s: string)
    ensures ParseLabels(s) == CleanSegments(Split(s, Separator))
  {
    if Trim(s) == [] {
      assert AllWhitespace(s);
      assert Separator !in s;
      SplitWithoutSeparator(s, Separator);
      CleanSegmentsSingle(s);
    }
  }

  /** One `;`-free piece gives its trimmed text as a label, or nothing if blank. */
  lemma ParseLabelsPiece(s: string)
    requires Separator !in s
    ensures ParseLabels(s) == if AllWhitespace(s) then [] else [Label(Trim(s))]
  {
    BlankGuardRedundant(s);
    SplitWithoutSeparator(s, Separator);
    CleanSegmentsSingle(s);
  }

  /** Labels come out in the order of their pieces: parsing distributes over `;`. */
  lemma ParseLabelsAround(a: string, b: string)
    ensures ParseLabels(a + [Separator] + b) == ParseLabels(a) + ParseLabels(b)
  {
    BlankGuardRedundant(a + [Separator] + b);
    BlankGuardRedundant(a);
    BlankGuardRedundant(b);
    SplitAround(a, b, Separator);
    CleanSegmentsAppend(Split(a, Separator), Split(b, Separator));
  }

  lemma {:induction false} CleanSegmentsOfClean(ls: seq<Label>)
    requires AllClean(ls)
    ensures CleanSegments(Texts(ls)) == ls
  {
    var ts := Texts(ls);
    if ls != [] {
      var t := ls[0].text;
      TrimTrimmed(t);
      assert ts == [t] + Texts(ls[1..]);
      CleanSegmentsCons(t, Texts(ls[1..]));
      CleanSegmentsOfClean(ls[1..]);
      assert [Label(t)] + ls[1..] == ls;
    } else {
      assert ts == [];
    }
  }

  /** Formatting clean labels and parsing the result gives the labels back. */
  lemma LabelsRoundTrip(ls: seq<Label>)
    requires AllClean(ls)
    ensures ParseLabels(LabelsToString(ls)) == ls
  {
    var ts := Texts(ls);
    var r := LabelsToString(ls);
    assert r == JoinWith(ts, Separator);
    if ls == [] {
      assert r == [];
      assert Trim(r) == [];
    } else {
      BlankGuardRedundant(r);
      assert NoSeparator(ts);
      SplitJoin(ts, Separator);
      CleanSegmentsOfClean(ls);
    }
  }

  /**
   * The other direction is lossy, but what the parser produces is a fixed
   * point: formatting and re-parsing parsed labels changes nothing.
   */
  lemma ParsedLabelsStable(s: string)
    ensures ParseLabels(LabelsToString(ParseLabels(s))) == ParseLabels(s)
  {
    LabelsRoundTrip(ParseLabels(s));
  }

  /** Every parsed label is a fixed point of `trim`. */
  lemma ParsedLabelsTrimmed(s: string)
    ensures forall i :: 0 <= i < |ParseLabels(s)| ==> Trim(ParseLabels(s)[i].text) == ParseLabels(s)[i].text
  {
    var ls := ParseLabels(s);
    forall i | 0 <= i < |ls| ensures Trim(ls[i].text) == ls[i].text {
      TrimTrimmed(ls[i].text);
    }
  }

  // ---------------------------------------------------------------------
  // The collection: lookup by id, add, delete, update
  // ---------------------------------------------------------------------

  predicate HasId(s: seq<Account>, id: string) {
    exists i :: 0 <= i < |s| && s[i].id == id
  }

  predicate IdsUnique(s: seq<Account>) {
    forall i, j :: 0 <= i < j < |s| ==> s[i].id != s[j].id
  }

  /** `findIndex(acc => acc.id === id)`: the first position holding `id`, or -1. */
  function IndexOf(s: seq<Account>, id: string): (k: int)
    ensures -1 <= k < |s|
    ensures k == -1 <==> !HasId(s, id)
    ensures k >= 0 ==> s[k].id == id && forall j :: 0 <= j < k ==> s[j].id != id
  {
    if s == [] then -1
    else if s[0].id == id then 0
    else
      var k := IndexOf(s[1..], id);
      assert forall j :: 1 <= j < |s| ==> s[j] == s[1..][j - 1];
      if k == -1 then -1 else k + 1
  }

  /** The linear search behind `findIndex` and `find`. */
  method FindIndex(s: seq<Account>, id: string) returns (index: int)
    ensures index == IndexOf(s, id)
  {
    index := 0;
    while index < |s|
      invariant 0 <= index <= |s|
      invariant forall j :: 0 <= j < index ==> s[j].id != id
    {
      if s[index].id == id {
        return;
      }
      index := index + 1;
    }
    index := -1;
  }

  /** The record addAccount appends: a blank local account in edit mode. */
  function NewAccount(id: string): Account {
    Account(id, [], Local, [], Some([]), false, FieldErrors(false, false), true)
  }

  /** deleteAccount on values: `splice(findIndex(id), 1)`, or nothing if absent. */
  function Removed(s: seq<Account>, id: string): seq<Account> {
    var k := IndexOf(s, id);
    if k == -1 then s else s[..k] + s[k + 1..]
  }

  /**
   * The fields of a record the UI may change through updateAccount; `None`
   * means the key is not among the updates.
   */
  datatype AccountUpdate = AccountUpdate(
    labels: Option<seq<Label>>,
    accountType: Option<AccountType>,
    login: Option<string>,
    password: Option<Option<string>>,
    editMode: Option<bool>)

  /** `Object.assign(account, updates)` restricted to the editable fields. */
  function Assign(a: Account, u: AccountUpdate): (r: Account)
    ensures r.id == a.id && r.isValid == a.isValid && r.errors == a.errors
    ensures r.labels == if u.labels.Some? then u.labels.value else a.labels
    ensures r.accountType == if u.accountType.Some? then u.accountType.value else a.accountType
    ensures r.login == if u.login.Some? then u.login.value else a.login
    ensures r.password == if u.password.Some? then u.password.value else a.password
    ensures r.editMode == if u.editMode.Some? then u.editMode.value else a.editMode
    ensures u == AccountUpdate(None, None, None, None, None) ==> r == a
  {
    a.(labels := if u.labels.Some? then u.labels.value else a.labels,
       accountType := if u.accountType.Some? then u.accountType.value else a.accountType,
       login := if u.login.Some? then u.login.value else a.login,
       password := if u.password.Some? then u.password.value else a.password,
       editMode := if u.editMode.Some? then u.editMode.value else a.editMode)
  }

  /** updateAccount on values: assign to the first record with `id`, then validate it. */
  function Updated(s: seq<Account>, id: string, u: AccountUpdate): seq<Account> {
    var k := IndexOf(s, id);
    if k == -1 then s else s[k := Validate(Assign(s[k], u))]
  }

  /**
   * The validation state a record can be in: freshly validated, or a new
   * record nobody has edited yet, whose error flags addAccount leaves cleared.
   */
  predicate Consistent(a: Account) {
    Validate(a) == a || a == NewAccount(a.id)
  }

  predicate AllConsistent(s: seq<Account>) {
    forall i :: 0 <= i < |s| ==> Consistent(s[i])
  }

  /** In either state `isValid` agrees with the rule: it is never stale. */
  lemma ConsistentValidity(a: Account)
    requires Consistent(a)
    ensures a.isValid <==> Validate(a).isValid
    ensures a.isValid ==> a.errors == FieldErrors(false, false)
  {
  }

  /** addAccount with a fresh id keeps ids unique. */
  lemma {:induction false} AddKeepsIdsUnique(s: seq<Account>, id: string)
    requires IdsUnique(s) && !HasId(s, id)
    ensures IdsUnique(s + [NewAccount(id)])
  {
    var r := s + [NewAccount(id)];
    forall i, j | 0 <= i < j < |r| ensures r[i].id != r[j].id {
      assert r[i] == s[i];
      if j < |s| {
        assert r[j] == s[j];
      }
    }
  }

  /** addAccount keeps every record consistent. */
  lemma {:induction false} AddKeepsConsistent(s: seq<Account>, id: string)
    requires AllConsistent(s)
    ensures AllConsistent(s + [NewAccount(id)])
  {
    var r := s + [NewAccount(id)];
    forall i | 0 <= i < |r| ensures Consistent(r[i]) {
      if i < |s| {
        assert r[i] == s[i];
      } else {
        assert r[i] == NewAccount(r[i].id);
      }
    }
  }

  /** deleteAccount with an absent id changes nothing. */
  lemma RemovedAbsent(s: seq<Account>, id: string)
    requires !HasId(s, id)
    ensures Removed(s, id) == s
  {
  }

  /**
   * deleteAccount with a present id: exactly the first record with that id
   * goes, and the others keep their order.
   */
  lemma RemovedPresent(s: seq<Account>, id: string)
    requires HasId(s, id)
    ensures var k := IndexOf(s, id); var r := Removed(s, id);
      s[k].id == id && |r| == |s| - 1 &&
      (forall i :: 0 <= i < k ==> r[i] == s[i]) &&
      (forall i :: k <= i < |r| ==> r[i] == s[i + 1])
  {
    var k := IndexOf(s, id);
    var r := Removed(s, id);
    assert r == s[..k] + s[k + 1..];
    forall i | 0 <= i < |r| ensures r[i] == s[if i < k then i else i + 1] {
      if i < k {
        assert r[i] == s[..k][i];
      } else {
        assert r[i] == s[k + 1..][i - k];
      }
    }
  }

  /** deleteAccount keeps ids unique. */
  lemma {:induction false} RemovedKeepsIdsUnique(s: seq<Account>, id: string)
    requires IdsUnique(s)
    ensures IdsUnique(Removed(s, id))
  {
    var r := Removed(s, id);
    var k := IndexOf(s, id);
    if k != -1 {
      forall i, j | 0 <= i < j < |r| ensures r[i].id != r[j].id {
        assert r[i] == s[if i < k then i else i + 1];
        assert r[j] == s[if j < k then j else j + 1];
      }
    }
  }

  /** With unique ids, no record with `id` is left after deleteAccount. */
  lemma {:induction false} RemovedDropsId(s: seq<Account>, id: string)
    requires IdsUnique(s)
    ensures !HasId(Removed(s, id), id)
  {
    if HasId(s, id) {
      var k := IndexOf(s, id);
      var r := Removed(s, id);
      RemovedPresent(s, id);
      forall i | 0 <= i < |r| ensures r[i].id != id {
        var i' := if i < k then i else i + 1;
        assert r[i] == s[i'] && i' != k;
      }
    }
  }

  /** deleteAccount leaves the presence of every other id as it was. */
  lemma {:induction false} RemovedKeepsOtherIds(s: seq<Account>, id: string, x: string)
    requires x != id
    ensures HasId(Removed(s, id), x) <==> HasId(s, x)
  {
    if HasId(s, id) {
      var k := IndexOf(s, id);
      var r := Removed(s, id);
      RemovedPresent(s, id);
      if HasId(r, x) {
        var i :| 0 <= i < |r| && r[i].id == x;
        var i' := if i < k then i else i + 1;
        assert s[i'].id == x;
      }
      if HasId(s, x) {
        var i :| 0 <= i < |s| && s[i].id == x;
        assert i != k;
        if i < k {
          assert r[i].id == x;
        } else {
          assert r[i - 1].id == x;
        }
      }
    } else {
      RemovedAbsent(s, id);
    }
  }

  /** deleteAccount keeps every record consistent. */
  lemma {:induction false} RemovedKeepsConsistent(s: seq<Account>, id: string)
    requires AllConsistent(s)
    ensures AllConsistent(Removed(s, id))
  {
    var r := Removed(s, id);
    var k := IndexOf(s, id);
    if k != -1 {
      forall i | 0 <= i < |r| ensures Consistent(r[i]) {
        assert r[i] == s[if i < k then i else i + 1];
      }
    }
  }

  /**
   * updateAccount: an absent id changes nothing; otherwise only the first
   * record with that id changes, it takes the updated fields, keeps its id,
   * and its errors and `isValid` agree with validation of its new fields.
   */
  lemma UpdatedShape(s: seq<Account>, id: string, u: AccountUpdate)
    ensures !HasId(s, id) ==> Updated(s, id, u) == s
    ensures var r := Updated(s, id, u);
      |r| == |s| && forall i :: 0 <= i < |s| ==> r[i].id == s[i].id
    ensures HasId(s, id) ==>
              var k := IndexOf(s, id); var r := Updated(s, id, u);
              (forall i :: 0 <= i < |s| && i != k ==> r[i] == s[i]) &&
              r[k] == Validate(Assign(s[k], u)) &&
              Validate(r[k]) == r[k]
  {
  }

  /** updateAccount keeps ids unique. */
  lemma UpdatedKeepsIdsUnique(s: seq<Account>, id: string, u: AccountUpdate)
    requires IdsUnique(s)
    ensures IdsUnique(Updated(s, id, u))
  {
    UpdatedShape(s, id, u);
  }

  /** updateAccount keeps every record consistent. */
  lemma UpdatedKeepsConsistent(s: seq<Account>, id: string, u: AccountUpdate)
    requires AllConsistent(s)
    ensures AllConsistent(Updated(s, id, u))
  {
    var r := Updated(s, id, u);
    var k := IndexOf(s, id);
    if k != -1 {
      forall i | 0 <= i < |r| ensures Consistent(r[i]) {
        if i != k {
          assert r[i] == s[i];
        } else {
          assert r[k] == Validate(Assign(s[k], u));
        }
      }
    }
  }

  // ---------------------------------------------------------------------
  // Loading from storage (loadFromStorage)
  // ---------------------------------------------------------------------

  /**
   * The 'accounts' item of local storage as loadFromStorage sees it:
   * missing (or empty), failing inside the try block (JSON.parse throws, or
   * a record whose login is not a string makes validation throw), parsed
   * to something other than an array, or an array of records.
   */
  datatype Stored = NoEntry | Unreadable | NotAnArray | Entries(records: seq<Account>)

  /** The spread `{...acc, editMode: false, isValid: false, errors: cleared}`. */
  function Reset(a: Account): Account {
    a.(editMode := false, isValid := false, errors := FieldErrors(false, false))
  }

  /**
   * One recovered record: reset, then validated. The persisted fields come
   * through, edit mode is off and the validation state is recomputed.
   */
  function Rehydrate(a: Account): (r: Account)
    ensures r.id == a.id && r.labels == a.labels && r.accountType == a.accountType
    ensures r.login == a.login && r.password == a.password
    ensures !r.editMode
    ensures r.errors == Validate(a).errors && r.isValid == Validate(a).isValid
  {
    Validate(Reset(a))
  }

  /** The collection loadFromStorage builds from an array of records. */
  function Normalize(rs: seq<Account>): seq<Account> {
    seq(|rs|, i requires 0 <= i < |rs| => Rehydrate(rs[i]))
  }

  /**
   * Saving and loading again gives the same records in the same order, with
   * the same id, labels, type, login and password, edit mode off, and the
   * validation state recomputed.
   */
  lemma {:induction false} NormalizeKeeps(rs: seq<Account>)
    ensures var r := Normalize(rs);
      |r| == |rs| &&
      (forall i :: 0 <= i < |rs| ==>
         r[i].id == rs[i].id && r[i].labels == rs[i].labels &&
         r[i].accountType == rs[i].accountType &&
         r[i].login == rs[i].login && r[i].password == rs[i].password &&
         !r[i].editMode && Validate(r[i]) == r[i]) &&
      AllConsistent(r) &&
      (IdsUnique(rs) ==> IdsUnique(r))
  {
    var r := Normalize(rs);
    forall i | 0 <= i < |rs| ensures r[i] == Rehydrate(rs[i]) && Validate(r[i]) == r[i] {
      ValidateIdempotent(Reset(rs[i]));
    }
  }

  /** Stored `isValid`, `errors` and `editMode` have no effect on the loaded collection. */
  lemma NormalizeIgnoresDerived(rs: seq<Account>, qs: seq<Account>)
    requires |rs| == |qs|
    requires forall i :: 0 <= i < |rs| ==>
               rs[i].(isValid := qs[i].isValid, errors := qs[i].errors, editMode := qs[i].editMode) == qs[i]
    ensures Normalize(rs) == Normalize(qs)
  {
  }

  /** Loading what was just loaded and saved changes nothing. */
  lemma NormalizeIdempotent(rs: seq<Account>)
    ensures Normalize(Normalize(rs)) == Normalize(rs)
  {
  }

  /**
   * The array branch of loadFromStorage: map every record through the reset
   * spread, then validate each one in turn (the `forEach`).
   */
  method LoadRecords(rs: seq<Account>) returns (loaded: seq<Account>)
    ensures loaded == Normalize(rs)
  {
    loaded := seq(|rs|, i requires 0 <= i < |rs| => Reset(rs[i]));
    var i := 0;
    while i < |loaded|
      invariant 0 <= i <= |loaded| == |rs|
      invariant forall j :: 0 <= j < i ==> loaded[j] == Rehydrate(rs[j])
      invariant forall j :: i <= j < |loaded| ==> loaded[j] == Reset(rs[j])
    {
      assert loaded[i] == Reset(rs[i]);
      var account := Validate(loaded[i]);
      assert account == Rehydrate(rs[i]);
      loaded := loaded[i := account];
      i := i + 1;
    }
    assert |Normalize(rs)| == |loaded|;
    forall j | 0 <= j < |rs| ensures loaded[j] == Normalize(rs)[j] { }
  }

  // ---------------------------------------------------------------------
  // The store
  // ---------------------------------------------------------------------

  /** The browser's local storage, reduced to the one item the store uses. */
  class BrowserStorage {
    var accountsItem: Stored

    constructor (item: Stored)
      ensures accountsItem == item
    {
      accountsItem := item;
    }
  }

  /** useAccountsStore: the reactive `accounts` array and its operations. */
  class AccountsStore {
    var accounts: seq<Account>
    const storage: BrowserStorage

    constructor (storage: BrowserStorage)
      ensures accounts == [] && this.storage == storage
    {
      accounts := [];
      this.storage := storage;
    }

    /** accountsCount. */
    function AccountsCount(): (n: nat)
      reads this
      ensures n == |accounts|
    {
      |accounts|
    }

    /**
     * addAccount: appends a blank local record in edit mode under
     * `freshId`, the identifier uuidv4() would generate, and returns it.
     */
    method AddAccount(freshId: string) returns (id: string)
      requires !HasId(accounts, freshId)
      modifies this
      ensures id == freshId
      ensures |accounts| == |old(accounts)| + 1 && accounts[..|old(accounts)|] == old(accounts)
      ensures accounts[|accounts| - 1] ==
                Account(freshId, [], Local, "", Some(""), false, FieldErrors(false, false), true)
      ensures IdsUnique(old(accounts)) ==> IdsUnique(accounts)
      ensures AllConsistent(old(accounts)) ==> AllConsistent(accounts)
    {
      if IdsUnique(accounts) {
        AddKeepsIdsUnique(accounts, freshId);
      }
      if AllConsistent(accounts) {
        AddKeepsConsistent(accounts, freshId);
      }
      accounts := accounts + [NewAccount(freshId)];
      id := freshId;
    }

    /** deleteAccount. */
    method DeleteAccount(id: string)
      modifies this
      ensures accounts == Removed(old(accounts), id)
      ensures !HasId(old(accounts), id) ==> accounts == old(accounts)
      ensures HasId(old(accounts), id) ==> |accounts| == |old(accounts)| - 1
      ensures IdsUnique(old(accounts)) ==> IdsUnique(accounts) && !HasId(accounts, id)
      ensures AllConsistent(old(accounts)) ==> AllConsistent(accounts)
    {
      ghost var before := accounts;
      var index := FindIndex(accounts, id);
      if index != -1 {
        accounts := accounts[..index] + accounts[index + 1..];
      }
      assert accounts == Removed(before, id);
      if !HasId(before, id) {
        RemovedAbsent(before, id);
      } else {
        RemovedPresent(before, id);
      }
      if IdsUnique(before) {
        RemovedKeepsIdsUnique(before, id);
        RemovedDropsId(before, id);
      }
      if AllConsistent(before) {
        RemovedKeepsConsistent(before, id);
      }
    }

    /** updateAccount. */
    method UpdateAccount(id: string, updates: AccountUpdate)
      modifies this
      ensures accounts == Updated(old(accounts), id, updates)
      ensures !HasId(old(accounts), id) ==> accounts == old(accounts)
      ensures IdsUnique(old(accounts)) ==> IdsUnique(accounts)
      ensures AllConsistent(old(accounts)) ==> AllConsistent(accounts)
    {
      if IdsUnique(accounts) {
        UpdatedKeepsIdsUnique(accounts, id, updates);
      }
      if AllConsistent(accounts) {
        UpdatedKeepsConsistent(accounts, id, updates);
      }
      var index := FindIndex(accounts, id);
      if index != -1 {
        var account := Assign(accounts[index], updates);
        accounts := accounts[index := Validate(account)];
      }
    }

    /**
     * saveToStorage: writes the whole collection under 'accounts';
     * `writeSucceeds` is false when setItem throws (the error is logged and
     * swallowed), and then the item is left as it was.
     */
    method SaveToStorage(writeSucceeds: bool)
      modifies storage
      ensures storage.accountsItem == if writeSucceeds then Entries(accounts) else old(storage.accountsItem)
    {
      if writeSucceeds {
        storage.accountsItem := Entries(accounts);
      }
    }

    /**
     * loadFromStorage: a missing item or a non-array leaves the collection
     * as it is; a failure empties it; an array replaces it with its records
     * reset and revalidated one by one.
     */
    method LoadFromStorage()
      modifies this
      ensures storage.accountsItem.NoEntry? || storage.accountsItem.NotAnArray? ==>
                accounts == old(accounts)
      ensures storage.accountsItem.Unreadable? ==> accounts == []
      ensures storage.accountsItem.Entries? ==> accounts == Normalize(storage.accountsItem.records)
      ensures AllConsistent(old(accounts)) ==> AllConsistent(accounts)
      ensures storage.accountsItem.Entries? && IdsUnique(storage.accountsItem.records) ==> IdsUnique(accounts)
    {
      match storage.accountsItem {
        case NoEntry =>
        case NotAnArray =>
        case Unreadable =>
          accounts := [];
        case Entries(rs) =>
          accounts := LoadRecords(rs);
          NormalizeKeeps(rs);
      }
    }
  }
}
