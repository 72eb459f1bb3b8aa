/**
 * Client preferences: typed settings (a menu of choices, or a bounded integer)
 * stored in a client's JSON `preferences` column, read and written through
 * descriptors, named through a registry that remembers registration order,
 * with a layer of overrides on top for QA.
 */
module ClientPreferences {
  import opened Wrappers
  import opened Decimal

  /** The exceptions the preference code raises. */
  datatype Error = InvalidPrefValue | RuntimeError | KeyError

  /** A JSON scalar, as stored in a client's `preferences` column. */
  datatype Raw = RawInt(i: int) | RawStr(s: string) | RawNull

  /** A member of a choices enum: its value and its display text. */
  datatype Choice = Choice(value: Raw, display: string)

  /** The value a preference takes: an integer or a member of its enum. */
  datatype Value = IntValue(i: int) | ChoiceValue(choice: Choice)

  /** The two kinds of preference, with the parameters each is built with. */
  datatype PrefKind =
    | ChoicesKind(choiceDefault: Choice, choices: seq<Choice>)
    | IntegerKind(intDefault: int, minValue: Option<int>, maxValue: Option<int>)

  /** A line of the menu prompt, with its text reduced to a tag. */
  datatype PromptLine = SelectOneOf | ChoiceLine(number: int, display: string)

  /** The four integer prompts, with their text reduced to tags. */
  datatype IntegerPrompt = Between(lo: int, hi: int) | AtLeast(lo: int) | AtMost(hi: int) | AnyInteger

  // ---------------------------------------------------------------------
  // User input
  // ---------------------------------------------------------------------

  /** `str.isspace` on the ASCII range. */
  predicate IsSpace(c: char)
  {
    var k := c as int;
    k == 32 || 9 <= k <= 13 || 28 <= k <= 31
  }

  predicate AllSpace(s: string)
  {
    forall k :: 0 <= k < |s| ==> IsSpace(s[k])
  }

  /** How many white-space characters the string starts with. */
  function LeadingSpaces(s: string): (n: nat)
    ensures n <= |s| && AllSpace(s[..n])
    ensures n < |s| ==> !IsSpace(s[n])
  {
    if s != [] && IsSpace(s[0]) then
      var n := 1 + LeadingSpaces(s[1..]);
      assert forall k :: 1 <= k < n ==> s[k] == s[1..][k - 1];
      n
    else 0
  }

  /** Where the white space the string ends with begins. */
  function TrailingStart(s: string): (j: nat)
    ensures j <= |s| && AllSpace(s[j..])
    ensures 0 < j ==> !IsSpace(s[j - 1])
  {
    if s != [] && IsSpace(s[|s| - 1]) then
      var j := TrailingStart(s[..|s| - 1]);
      assert forall k :: j <= k < |s| - 1 ==> s[k] == s[..|s| - 1][k];
      j
    else |s|
  }

  /** `str.strip()`: the input without its leading and trailing white space. */
  function Strip(s: string): (r: string)
    ensures exists i, j :: 0 <= i <= j <= |s| && r == s[i..j] && AllSpace(s[..i]) && AllSpace(s[j..])
    ensures r != [] ==> !IsSpace(r[0]) && !IsSpace(r[|r| - 1])
  {
    var i := LeadingSpaces(s);
    var t := s[i..];
    var j := TrailingStart(t);
    assert s[i + j..] == t[j..];
    assert t[..j] == s[i..i + j];
    t[..j]
  }

  // ---------------------------------------------------------------------
  // ChoicesPreference
  // ---------------------------------------------------------------------

  /**
   * `clean`: the input read as a 1-based position in the menu. A number that
   * is not positive, or past the end, or no number at all, selects nothing;
   * Python's negative indexing is never reached.
   */
  function ChoicesClean(choices: seq<Choice>, userInput: string): (r: Option<Choice>)
    ensures r.Some? <==> ParseInt(userInput).Some? && 1 <= ParseInt(userInput).value <= |choices|
    ensures r.Some? ==> r.value == choices[ParseInt(userInput).value - 1]
  {
    match ParseInt(userInput)
    case None => None
    case Some(idx) =>
      if idx <= 0 then None
      else if idx - 1 < |choices| then Some(choices[idx - 1])
      else None
  }

  /**
   * `validate`: the enum's `from_value`, the first member whose value is the
   * given one; no such member is an invalid value.
   */
  function ChoicesValidate(choices: seq<Choice>, raw: Raw): (r: Result<Choice, Error>)
    ensures r.Success? <==> exists k :: 0 <= k < |choices| && choices[k].value == raw
    ensures r.Success? ==> r.value in choices && r.value.value == raw
    ensures r.Failure? ==> r.error == InvalidPrefValue
  {
    if choices == [] then Failure(InvalidPrefValue)
    else if choices[0].value == raw then Success(choices[0])
    else
      var r := ChoicesValidate(choices[1..], raw);
      assert forall k :: 0 < k < |choices| ==> choices[k] == choices[1..][k - 1];
      r
  }

  /** `get_prompt`: a header, then the choices numbered from 1 in menu order. */
  function ChoicesPrompt(choices: seq<Choice>): (lines: seq<PromptLine>)
    ensures |lines| == |choices| + 1 && lines[0] == SelectOneOf
    ensures forall i :: 0 <= i < |choices| ==> lines[i + 1] == ChoiceLine(i + 1, choices[i].display)
  {
    [SelectOneOf] + seq(|choices|, i requires 0 <= i < |choices| => ChoiceLine(i + 1, choices[i].display))
  }

  /**
   * The prompt and `clean` agree: typing a number the prompt shows selects the
   * choice shown beside it, and typing any other number selects nothing.
   */
  lemma CleanShownNumber(choices: seq<Choice>, n: int)
    ensures ChoicesClean(choices, FormatInt(n)) ==
              if 1 <= n <= |choices| then Some(choices[n - 1]) else None
    ensures 1 <= n <= |choices| ==> ChoicesPrompt(choices)[n] == ChoiceLine(n, choices[n - 1].display)
  {
    ParseFormatInt(n);
  }

  // ---------------------------------------------------------------------
  // IntegerPreference
  // ---------------------------------------------------------------------

  /**
   * Python's `int(value)` on a stored scalar; None is the exception it raises:
   * the TypeError for None, the ValueError for a string that is no integer.
   */
  function ToInt(raw: Raw): (r: Option<int>)
    ensures raw.RawNull? ==> r.None?
    ensures raw.RawInt? ==> r == Some(raw.i)
    ensures raw.RawStr? ==> r == ParseInt(raw.s)
  {
    match raw
    case RawInt(i) => Some(i)
    case RawStr(s) => ParseInt(s)
    case RawNull => None
  }

  /** An integer stored as is, or as the string `str` spells it, reads back as itself. */
  lemma ToIntStoredForms(i: int)
    ensures ToInt(RawInt(i)) == Some(i) && ToInt(RawStr(FormatInt(i))) == Some(i)
  {
    ParseFormatInt(i);
  }

  /** Every bound that is present holds. */
  predicate WithinBounds(minValue: Option<int>, maxValue: Option<int>, v: int)
  {
    (minValue.Some? ==> minValue.value <= v) && (maxValue.Some? ==> v <= maxValue.value)
  }

  /** `validate`: the value as an integer, provided each present bound holds. */
  function IntegerValidate(minValue: Option<int>, maxValue: Option<int>, raw: Raw): (r: Result<int, Error>)
    ensures r.Success? <==> ToInt(raw).Some? && WithinBounds(minValue, maxValue, ToInt(raw).value)
    ensures r.Success? ==> r.value == ToInt(raw).value
    ensures r.Failure? ==> r.error == InvalidPrefValue
  {
    match ToInt(raw)
    case None => Failure(InvalidPrefValue)
    case Some(v) =>
      if minValue.Some? && v < minValue.value then Failure(InvalidPrefValue)
      else if maxValue.Some? && v > maxValue.value then Failure(InvalidPrefValue)
      else Success(v)
  }

  /** `clean`: `validate` on the text, with an invalid value turned into None. */
  function IntegerClean(minValue: Option<int>, maxValue: Option<int>, userInput: string): (r: Option<int>)
    ensures r.Some? <==> ParseInt(userInput).Some? && WithinBounds(minValue, maxValue, ParseInt(userInput).value)
    ensures r.Some? ==> r.value == ParseInt(userInput).value
  {
    IntegerValidate(minValue, maxValue, RawStr(userInput)).ToOption()
  }

  /** Typing an integer as `str` spells it is accepted exactly when it is in bounds. */
  lemma IntegerCleanFormatted(minValue: Option<int>, maxValue: Option<int>, v: int)
    ensures IntegerClean(minValue, maxValue, FormatInt(v)) == (if WithinBounds(minValue, maxValue, v) then Some(v) else None)
  {
    ParseFormatInt(v);
  }

  /** The integers a prompt invites the user to enter. */
  predicate Admits(p: IntegerPrompt, v: int)
  {
    match p
    case Between(lo, hi) => lo <= v <= hi
    case AtLeast(lo) => lo <= v
    case AtMost(hi) => v <= hi
    case AnyInteger => true
  }

  /** `get_prompt`: the prompt announces exactly the integers `validate` accepts. */
  function IntegerPromptFor(minValue: Option<int>, maxValue: Option<int>): (p: IntegerPrompt)
    ensures forall v :: Admits(p, v) <==> IntegerValidate(minValue, maxValue, RawInt(v)).Success?
  {
    if minValue.Some? && maxValue.Some? then Between(minValue.value, maxValue.value)
    else if minValue.Some? then AtLeast(minValue.value)
    else if maxValue.Some? then AtMost(maxValue.value)
    else AnyInteger
  }

  /** Python truthiness of an optional integer: present and not zero. */
  predicate Truthy(x: Option<int>)
  {
    x.Some? && x.value != 0
  }

  /**
   * `IntegerPreference.__init__` as written: the bound check compares the
   * maximum with itself, so it rejects every pair of truthy bounds.
   */
  function NewIntegerKindAsWritten(default: int, minValue: Option<int>, maxValue: Option<int>): (r: Result<PrefKind, Error>)
    ensures r.Failure? <==> Truthy(minValue) && Truthy(maxValue)
    ensures r.Failure? ==> r.error == RuntimeError
    ensures r.Success? ==> r.value == IntegerKind(default, minValue, maxValue)
  {
    if Truthy(minValue) && Truthy(maxValue) && maxValue.value >= maxValue.value then Failure(RuntimeError)
    else Success(IntegerKind(default, minValue, maxValue))
  }

  /** As written, the preference "between 1 and 10" cannot be built. */
  lemma AsWrittenRejectsOrderedBounds()
    ensures NewIntegerKindAsWritten(5, Some(1), Some(10)) == Failure(RuntimeError)
  {
  }

  /**
   * `IntegerPreference.__init__` with the bound check it evidently means:
   * truthy bounds are rejected when the minimum is not below the maximum.
   */
  function NewIntegerKind(default: int, minValue: Option<int>, maxValue: Option<int>): (r: Result<PrefKind, Error>)
    ensures r.Failure? ==> r.error == RuntimeError
    ensures !(Truthy(minValue) && Truthy(maxValue)) ==> r.Success?
    ensures r.Success? ==> r.value == IntegerKind(default, minValue, maxValue)
  {
    if Truthy(minValue) && Truthy(maxValue) && minValue.value >= maxValue.value then Failure(RuntimeError)
    else Success(IntegerKind(default, minValue, maxValue))
  }

  /**
   * The corrected constructor accepts truthy bounds exactly when they are
   * ordered, and then some integer lies between them; it builds "between 1
   * and 10", which the code as written refuses.
   */
  lemma {:induction false} NewIntegerKindChecksOrder(default: int, minValue: Option<int>, maxValue: Option<int>)
    requires Truthy(minValue) && Truthy(maxValue)
    ensures NewIntegerKind(default, minValue, maxValue).Success? <==> minValue.value < maxValue.value
    ensures NewIntegerKind(default, minValue, maxValue).Success? ==>
              exists v :: IntegerValidate(minValue, maxValue, RawInt(v)).Success?
    ensures NewIntegerKind(5, Some(1), Some(10)).Success?
  {
    if NewIntegerKind(default, minValue, maxValue).Success? {
      assert IntegerValidate(minValue, maxValue, RawInt(minValue.value)).Success?;
    }
  }

  // ---------------------------------------------------------------------
  // Either kind
  // ---------------------------------------------------------------------

  function Default(kind: PrefKind): Value
  {
    match kind
    case ChoicesKind(d, _) => ChoiceValue(d)
    case IntegerKind(d, _, _) => IntValue(d)
  }

  /** What is stored in the JSON column for a value: an enum member stores its value. */
  function ToRaw(v: Value): Raw
  {
    match v
    case IntValue(i) => RawInt(i)
    case ChoiceValue(c) => c.value
  }

  /** `validate` of either kind: a valid value is a menu entry, or an integer in bounds. */
  function Validate(kind: PrefKind, raw: Raw): (r: Result<Value, Error>)
    ensures r.Failure? ==> r.error == InvalidPrefValue
    ensures kind.ChoicesKind? ==>
              (r.Success? <==> exists k :: 0 <= k < |kind.choices| && kind.choices[k].value == raw)
              && (r.Success? ==> r.value.ChoiceValue? && r.value.choice in kind.choices && ToRaw(r.value) == raw)
    ensures kind.IntegerKind? ==>
              (r.Success? <==> ToInt(raw).Some? && WithinBounds(kind.minValue, kind.maxValue, ToInt(raw).value))
              && (r.Success? ==> r.value == IntValue(ToInt(raw).value))
  {
    match kind
    case ChoicesKind(_, choices) =>
      (match ChoicesValidate(choices, raw)
       case Success(c) => Success(ChoiceValue(c))
       case Failure(e) => Failure(e))
    case IntegerKind(_, minValue, maxValue) =>
      (match IntegerValidate(minValue, maxValue, raw)
       case Success(i) => Success(IntValue(i))
       case Failure(e) => Failure(e))
  }

  /** Validating what validation produced, once stored, gives it back. */
  lemma ValidateIdempotent(kind: PrefKind, raw: Raw)
    requires Validate(kind, raw).Success?
    ensures Validate(kind, ToRaw(Validate(kind, raw).value)) == Validate(kind, raw)
  {
    if kind.ChoicesKind? {
      assert ToRaw(Validate(kind, raw).value) == raw;
    }
  }

  /** `clean` of either kind; what it yields stores as a value `validate` accepts. */
  function Clean(kind: PrefKind, userInput: string): (r: Option<Value>)
    ensures kind.ChoicesKind? ==> r == (match ChoicesClean(kind.choices, userInput)
                                        case Some(c) => Some(ChoiceValue(c))
                                        case None => None)
    ensures kind.IntegerKind? ==> r == (match IntegerClean(kind.minValue, kind.maxValue, userInput)
                                        case Some(i) => Some(IntValue(i))
                                        case None => None)
    ensures r.Some? ==> Validate(kind, ToRaw(r.value)).Success?
                        && ToRaw(Validate(kind, ToRaw(r.value)).value) == ToRaw(r.value)
  {
    match kind
    case ChoicesKind(_, choices) =>
      (match ChoicesClean(choices, userInput)
       case Some(c) =>
         var k := ParseInt(userInput).value - 1;
         assert choices[k].value == c.value;
         Some(ChoiceValue(c))
       case None => None)
    case IntegerKind(_, minValue, maxValue) =>
      (match IntegerClean(minValue, maxValue, userInput)
       case Some(i) => Some(IntValue(i))
       case None => None)
  }

  /** `format_value`: an integer in decimal, an enum member by its display text. */
  function FormatValue(v: Value): (s: string)
    ensures v.IntValue? ==> ParseInt(s) == Some(v.i)
    ensures v.ChoiceValue? ==> s == v.choice.display
  {
    match v
    case IntValue(i) => ParseFormatInt(i); FormatInt(i)
    case ChoiceValue(c) => c.display
  }

  // ---------------------------------------------------------------------
  // Descriptors over a client's preferences map
  // ---------------------------------------------------------------------

  /** `preferences or {}`. */
  function Existing(preferences: Option<map<string, Raw>>): map<string, Raw>
  {
    if preferences.Some? then preferences.value else map[]
  }

  /** The stored value under `name`, where missing and JSON null both count as absent. */
  function StoredValue(preferences: Option<map<string, Raw>>, name: string): (r: Option<Raw>)
    ensures r.Some? <==> name in Existing(preferences) && Existing(preferences)[name] != RawNull
    ensures r.Some? ==> r.value == Existing(preferences)[name]
  {
    var prefs := Existing(preferences);
    if name in prefs && prefs[name] != RawNull then Some(prefs[name]) else None
  }

  /**
   * Reading back a name just stored gives what was stored, with JSON null
   * reading as absent; every other name reads as before.
   */
  lemma StoredValueAfterStore(preferences: Option<map<string, Raw>>, name: string, raw: Raw, other: string)
    ensures StoredValue(Some(Existing(preferences)[name := raw]), name) == if raw == RawNull then None else Some(raw)
    ensures other != name ==>
              StoredValue(Some(Existing(preferences)[name := raw]), other) == StoredValue(preferences, other)
  {
    var stored := Existing(preferences)[name := raw];
    assert Existing(Some(stored)) == stored;
    assert other != name && other in stored ==> stored[other] == Existing(preferences)[other];
  }

  /** A client row; only its JSON `preferences` column is modelled. */
  class Client {
    var preferences: Option<map<string, Raw>>

    constructor(preferences: Option<map<string, Raw>>)
      ensures this.preferences == preferences
    {
      this.preferences := preferences;
    }
  }

  /** A preference descriptor; its identity is the object itself, as with `is`. */
  class ClientPreference {
    const displayName: string
    const description: string
    const kind: PrefKind

    constructor(displayName: string, description: string, kind: PrefKind)
      ensures this.displayName == displayName && this.description == description && this.kind == kind
    {
      this.displayName := displayName;
      this.description := description;
      this.kind := kind;
    }

    /**
     * `__get__` on a client: the pref's name is looked up first (an
     * unregistered pref raises); an override wins; otherwise a missing or null
     * stored value gives the default; otherwise the stored value is validated,
     * so whatever comes from storage is a valid value of the pref.
     */
    function Get(registry: ClientPreferencesRegistry, instance: Client): (r: Result<Value, Error>)
      reads registry, instance
      requires registry.Valid()
      ensures registry.NameOf(this).None? ==> r == Failure(RuntimeError)
      ensures registry.NameOf(this).Some? && registry.NameOf(this).value in registry.overrides ==>
                r == Success(registry.overrides[registry.NameOf(this).value])
      ensures registry.NameOf(this).Some? && registry.NameOf(this).value !in registry.overrides
              && StoredValue(instance.preferences, registry.NameOf(this).value).None? ==>
                r == Success(Default(kind))
      ensures registry.NameOf(this).Some? && registry.NameOf(this).value !in registry.overrides
              && StoredValue(instance.preferences, registry.NameOf(this).value).Some? ==>
                r == Validate(kind, StoredValue(instance.preferences, registry.NameOf(this).value).value)
                && (r.Success? ==> Validate(kind, ToRaw(r.value)) == r)
    {
      match registry.NameOf(this)
      case None => Failure(RuntimeError)
      case Some(name) =>
        match registry.GetOverride(name)
        case Some(v) => Success(v)
        case None =>
          match StoredValue(instance.preferences, name)
          case None => Success(Default(kind))
          case Some(raw) =>
            if Validate(kind, raw).Success? then
              ValidateIdempotent(kind, raw);
              Validate(kind, raw)
            else Validate(kind, raw)
    }

    /**
     * `_set`: validate, create the map if the column is null, then store the
     * validated value under the pref's name, leaving every other key alone. The
     * name lookup comes after the map is created, so an unregistered pref
     * still leaves an (empty) map behind.
     */
    method Set(registry: ClientPreferencesRegistry, client: Client, value: Raw) returns (r: Result<(), Error>)
      requires registry.Valid()
      modifies client
      ensures Validate(kind, value).Failure? ==>
                r == Failure(InvalidPrefValue) && client.preferences == old(client.preferences)
      ensures Validate(kind, value).Success? && registry.NameOf(this).None? ==>
                r == Failure(RuntimeError) && client.preferences == Some(Existing(old(client.preferences)))
      ensures Validate(kind, value).Success? && registry.NameOf(this).Some? ==>
                r.Success?
                && client.preferences ==
                     Some(Existing(old(client.preferences))[registry.NameOf(this).value := ToRaw(Validate(kind, value).value)])
    {
      var v := Validate(kind, value);
      if v.Failure? {
        return Failure(InvalidPrefValue);
      }
      if client.preferences.None? {
        client.preferences := Some(map[]);
      }
      var name := registry.GetName(this);
      if name.Failure? {
        return Failure(RuntimeError);
      }
      client.preferences := Some(client.preferences.value[name.value := ToRaw(v.value)]);
      return Success(());
    }

    /**
     * `set_from_user_input`: clean the stripped input; an input that does not
     * clean is an invalid value and changes nothing; otherwise `_set` stores it
     * and the cleaned value is returned.
     */
    method SetFromUserInput(registry: ClientPreferencesRegistry, client: Client, userInput: string)
      returns (r: Result<Value, Error>)
      requires registry.Valid()
      modifies client
      ensures Clean(kind, Strip(userInput)).None? ==>
                r == Failure(InvalidPrefValue) && client.preferences == old(client.preferences)
      ensures Clean(kind, Strip(userInput)).Some? && registry.NameOf(this).None? ==>
                r == Failure(RuntimeError) && client.preferences == Some(Existing(old(client.preferences)))
      ensures Clean(kind, Strip(userInput)).Some? && registry.NameOf(this).Some? ==>
                r == Success(Clean(kind, Strip(userInput)).value)
                && client.preferences ==
                     Some(Existing(old(client.preferences))[registry.NameOf(this).value := ToRaw(r.value)])
    {
      var v := Clean(kind, Strip(userInput));
      if v.None? {
        return Failure(InvalidPrefValue);
      }
      var s := Set(registry, client, ToRaw(v.value));
      if s.Failure? {
        return Failure(s.error);
      }
      return Success(v.value);
    }
  }

  /**
   * An IntegerPreference: rejected bounds raise and build nothing; otherwise a
   * new descriptor with those bounds and that default.
   */
  method NewIntegerPreference(
    displayName: string, description: string, default: int, minValue: Option<int>, maxValue: Option<int>)
    returns (r: Result<ClientPreference, Error>)
    ensures r.Success? <==> NewIntegerKind(default, minValue, maxValue).Success?
    ensures r.Failure? ==> r.error == RuntimeError
    ensures r.Success? ==> fresh(r.value) && r.value.displayName == displayName && r.value.description == description
                           && r.value.kind == IntegerKind(default, minValue, maxValue)
  {
    var kind := NewIntegerKind(default, minValue, maxValue);
    if kind.Failure? {
      return Failure(kind.error);
    }
    var pref := new ClientPreference(displayName, description, kind.value);
    return Success(pref);
  }

  /**
   * What is read back after `_set` stored a value is that validated value
   * (the default when the value stores as JSON null).
   */
  lemma GetAfterSet(pref: ClientPreference, registry: ClientPreferencesRegistry, client: Client, value: Raw)
    requires registry.Valid()
    requires Validate(pref.kind, value).Success?
    requires registry.NameOf(pref).Some? && registry.NameOf(pref).value !in registry.overrides
    requires client.preferences.Some? && registry.NameOf(pref).value in client.preferences.value
    requires client.preferences.value[registry.NameOf(pref).value] == ToRaw(Validate(pref.kind, value).value)
    ensures pref.Get(registry, client) ==
              if ToRaw(Validate(pref.kind, value).value) == RawNull then Success(Default(pref.kind))
              else Validate(pref.kind, value)
  {
    ValidateIdempotent(pref.kind, value);
  }

  // ---------------------------------------------------------------------
  // ClientPreferencesRegistry
  // ---------------------------------------------------------------------

  /** The first position, in registration order, whose pref is `pref` itself. */
  function FirstIndexOf(names: seq<string>, prefs: map<string, ClientPreference>, pref: ClientPreference): (r: Option<nat>)
    requires forall k :: 0 <= k < |names| ==> names[k] in prefs
    ensures r.Some? ==> r.value < |names| && prefs[names[r.value]] == pref
                        && forall k :: 0 <= k < r.value ==> prefs[names[k]] != pref
    ensures r.None? ==> forall k :: 0 <= k < |names| ==> prefs[names[k]] != pref
  {
    if names == [] then None
    else if prefs[names[0]] == pref then Some(0)
    else
      var rest := FirstIndexOf(names[1..], prefs, pref);
      assert forall k :: 0 < k < |names| ==> names[k] == names[1..][k - 1];
      match rest
      case None => None
      case Some(i) => Some(i + 1)
  }

  /** The registered name of `pref`: the first one in registration order. */
  function NameIn(names: seq<string>, prefs: map<string, ClientPreference>, pref: ClientPreference): (r: Option<string>)
    requires forall k :: 0 <= k < |names| ==> names[k] in prefs
    ensures r.Some? <==> exists k :: 0 <= k < |names| && prefs[names[k]] == pref
    ensures r.Some? ==> r.value in names && prefs[r.value] == pref
  {
    match FirstIndexOf(names, prefs, pref)
    case None => None
    case Some(i) => Some(names[i])
  }

  /** Registering a new name keeps every existing pref's name and names the new one if it had none. */
  lemma {:induction false} NameInAppend(
    names: seq<string>, prefs: map<string, ClientPreference>, name: string, pref: ClientPreference, q: ClientPreference)
    requires forall k :: 0 <= k < |names| ==> names[k] in prefs
    requires name !in names
    ensures forall k :: 0 <= k < |names + [name]| ==> (names + [name])[k] in prefs[name := pref]
    ensures NameIn(names, prefs, q).Some? ==> NameIn(names + [name], prefs[name := pref], q) == NameIn(names, prefs, q)
    ensures NameIn(names, prefs, q).None? ==>
              NameIn(names + [name], prefs[name := pref], q) == (if q == pref then Some(name) else None)
  {
    var names' := names + [name];
    var prefs' := prefs[name := pref];
    assert forall k :: 0 <= k < |names| ==> names'[k] == names[k] && prefs'[names'[k]] == prefs[names[k]];
    var a := FirstIndexOf(names, prefs, q);
    var b := FirstIndexOf(names', prefs', q);
    if a.Some? {
      assert b.Some? && b.value <= a.value;
      assert b.value == a.value;
    } else if q == pref {
      assert prefs'[names'[|names|]] == q;
      assert b == Some(|names|);
    } else {
      assert prefs'[names'[|names|]] != q;
      assert b.None?;
    }
  }

  /** The overrides after setting each pair in turn, each under its pref's name. */
  function Overlay(
    names: seq<string>, prefs: map<string, ClientPreference>, base: map<string, Value>,
    items: seq<(ClientPreference, Value)>): (r: map<string, Value>)
    requires forall k :: 0 <= k < |names| ==> names[k] in prefs
    requires forall i :: 0 <= i < |items| ==> NameIn(names, prefs, items[i].0).Some?
    ensures forall n :: n in r <==> n in base || exists i :: 0 <= i < |items| && NameIn(names, prefs, items[i].0) == Some(n)
    ensures forall n :: n in base && (forall i :: 0 <= i < |items| ==> NameIn(names, prefs, items[i].0) != Some(n)) ==>
              r[n] == base[n]
  {
    if items == [] then base
    else
      var last := items[|items| - 1];
      var r := Overlay(names, prefs, base, items[..|items| - 1])[NameIn(names, prefs, last.0).value := last.1];
      assert forall i :: 0 <= i < |items| - 1 ==> items[..|items| - 1][i] == items[i];
      r
  }

  /** Setting one more pair sets it over what the pairs before it left. */
  lemma OverlayStep(
    names: seq<string>, prefs: map<string, ClientPreference>, base: map<string, Value>,
    items: seq<(ClientPreference, Value)>, j: nat)
    requires forall k :: 0 <= k < |names| ==> names[k] in prefs
    requires j < |items| && forall i :: 0 <= i <= j ==> NameIn(names, prefs, items[i].0).Some?
    ensures Overlay(names, prefs, base, items[..j + 1]) ==
              Overlay(names, prefs, base, items[..j])[NameIn(names, prefs, items[j].0).value := items[j].1]
  {
    assert items[..j + 1][..j] == items[..j];
  }

  /** The value an override ends up with is the one given last for that name. */
  lemma {:induction false} OverlayLastWins(
    names: seq<string>, prefs: map<string, ClientPreference>, base: map<string, Value>,
    items: seq<(ClientPreference, Value)>, i: nat)
    requires forall k :: 0 <= k < |names| ==> names[k] in prefs
    requires forall j :: 0 <= j < |items| ==> NameIn(names, prefs, items[j].0).Some?
    requires i < |items|
    requires forall j :: i < j < |items| ==> NameIn(names, prefs, items[j].0) != NameIn(names, prefs, items[i].0)
    ensures NameIn(names, prefs, items[i].0).value in Overlay(names, prefs, base, items)
    ensures Overlay(names, prefs, base, items)[NameIn(names, prefs, items[i].0).value] == items[i].1
    decreases |items|
  {
    if i < |items| - 1 {
      var init := items[..|items| - 1];
      assert forall j :: 0 <= j < |init| ==> init[j] == items[j];
      OverlayLastWins(names, prefs, base, init, i);
    }
  }

  /**
   * After the overrides were laid over `base`, the override of a pref's name
   * is the value of the last pair for that pref.
   */
  lemma OverrideLastWins(
    registry: ClientPreferencesRegistry, names: seq<string>, prefs: map<string, ClientPreference>,
    base: map<string, Value>, items: seq<(ClientPreference, Value)>, i: nat)
    requires registry.names == names && registry.prefs == prefs
    requires forall k :: 0 <= k < |names| ==> names[k] in prefs
    requires forall j :: 0 <= j < |items| ==> NameIn(names, prefs, items[j].0).Some?
    requires registry.overrides == Overlay(names, prefs, base, items)
    requires i < |items| && forall j :: i < j < |items| ==> items[j].0 != items[i].0
    ensures registry.GetOverride(NameIn(names, prefs, items[i].0).value) == Some(items[i].1)
  {
    forall j | i < j < |items|
      ensures NameIn(names, prefs, items[j].0) != NameIn(names, prefs, items[i].0)
    {
      assert prefs[NameIn(names, prefs, items[j].0).value] != prefs[NameIn(names, prefs, items[i].0).value];
    }
    OverlayLastWins(names, prefs, base, items, i);
  }

  /**
   * The registry: the pref names in registration order, the pref under each
   * name, and the overrides in effect (a single scope).
   */
  class ClientPreferencesRegistry {
    var names: seq<string>
    var prefs: map<string, ClientPreference>
    var overrides: map<string, Value>

    /** Names are unique and are exactly the keys of the pref table. */
    ghost predicate Valid()
      reads this
    {
      (forall i, j :: 0 <= i < j < |names| ==> names[i] != names[j])
      && (forall n :: n in prefs <==> n in names)
    }

    constructor()
      ensures Valid() && names == [] && prefs == map[] && overrides == map[]
    {
      names := [];
      prefs := map[];
      overrides := map[];
    }

    /** The name `get_name` finds for `pref`, if any. */
    function NameOf(pref: ClientPreference): (r: Option<string>)
      reads this
      requires Valid()
      ensures r.Some? <==> exists n :: n in prefs && prefs[n] == pref
      ensures r.Some? ==> r.value in prefs && prefs[r.value] == pref
    {
      var r := NameIn(names, prefs, pref);
      assert forall n :: n in prefs ==> exists k :: 0 <= k < |names| && names[k] == n;
      r
    }

    /**
     * `register_pref`: a name already taken raises and changes nothing;
     * otherwise the name goes last in the order. Names given before stay, and
     * a pref registered for the first time gets this name.
     */
    method RegisterPref(name: string, pref: ClientPreference) returns (r: Result<(), Error>)
      requires Valid()
      modifies this
      ensures Valid()
      ensures overrides == old(overrides)
      ensures old(name in prefs) ==> r == Failure(RuntimeError) && names == old(names) && prefs == old(prefs)
      ensures old(name !in prefs) ==> r.Success? && names == old(names) + [name] && prefs == old(prefs)[name := pref]
      ensures r.Success? ==> forall q :: NameIn(old(names), old(prefs), q).Some? ==> NameOf(q) == NameIn(old(names), old(prefs), q)
      ensures r.Success? && NameIn(old(names), old(prefs), pref).None? ==> NameOf(pref) == Some(name)
    {
      if name in prefs {
        return Failure(RuntimeError);
      }
      forall q {
        NameInAppend(names, prefs, name, pref, q);
      }
      names := names + [name];
      prefs := prefs[name := pref];
      return Success(());
    }

    /** `get_name`: a search in registration order for the pref itself. */
    method GetName(pref: ClientPreference) returns (r: Result<string, Error>)
      requires Valid()
      ensures NameOf(pref).Some? ==> r == Success(NameOf(pref).value)
      ensures NameOf(pref).None? ==> r == Failure(RuntimeError)
    {
      var i := 0;
      while i < |names|
        invariant 0 <= i <= |names|
        invariant forall k :: 0 <= k < i ==> prefs[names[k]] != pref
      {
        if prefs[names[i]] == pref {
          return Success(names[i]);
        }
        i := i + 1;
      }
      return Failure(RuntimeError);
    }

    /** `get_by_name`: the pref under that name, KeyError for an unknown one. */
    function GetByName(name: string): (r: Result<ClientPreference, Error>)
      reads this
      requires Valid()
      ensures r.Success? <==> name in names
      ensures r.Success? ==> r.value == prefs[name] && NameOf(r.value).Some?
      ensures r.Failure? ==> r.error == KeyError
    {
      if name in prefs then Success(prefs[name]) else Failure(KeyError)
    }

    /** `get_by_index`: counting from 1 in registration order; None outside 1..count. */
    method GetByIndex(index: int) returns (r: Option<ClientPreference>)
      requires Valid()
      ensures 1 <= index <= |names| ==> r == Some(prefs[names[index - 1]])
      ensures !(1 <= index <= |names|) ==> r == None
      ensures r.Some? ==> NameOf(r.value).Some?
    {
      var i := 1;
      while i <= |names|
        invariant 1 <= i <= |names| + 1
        invariant !(1 <= index < i)
      {
        if i == index {
          return Some(prefs[names[i - 1]]);
        }
        i := i + 1;
      }
      return None;
    }

    /** `get_override`: the override in effect for a name, if any. */
    function GetOverride(name: string): (r: Option<Value>)
      reads this
      ensures r.Some? <==> name in overrides
      ensures r.Some? ==> r.value == overrides[name]
    {
      if name in overrides then Some(overrides[name]) else None
    }

    /**
     * Entering `register_overrides`: each pair in turn is set under its pref's
     * name. An unregistered pref raises out of the loop before the `try`, so
     * the pairs before it stay set.
     */
    method RegisterOverrides(items: seq<(ClientPreference, Value)>) returns (r: Result<(), Error>)
      requires Valid()
      modifies this
      ensures Valid() && names == old(names) && prefs == old(prefs)
      ensures r.Success? <==> forall i :: 0 <= i < |items| ==> NameOf(items[i].0).Some?
      ensures r.Success? ==> overrides == Overlay(names, prefs, old(overrides), items)
      ensures r.Failure? ==>
                r.error == RuntimeError
                && exists j :: 0 <= j < |items| && NameOf(items[j].0).None?
                     && (forall i :: 0 <= i < j ==> NameOf(items[i].0).Some?)
                     && overrides == Overlay(names, prefs, old(overrides), items[..j])
    {
      var j := 0;
      while j < |items|
        invariant 0 <= j <= |items|
        invariant Valid() && names == old(names) && prefs == old(prefs)
        invariant forall i :: 0 <= i < j ==> NameIn(names, prefs, items[i].0).Some?
        invariant overrides == Overlay(names, prefs, old(overrides), items[..j])
      {
        var name := GetName(items[j].0);
        if name.Failure? {
          return Failure(RuntimeError);
        }
        OverlayStep(names, prefs, old(overrides), items, j);
        overrides := overrides[name.value := items[j].1];
        j := j + 1;
      }
      assert items[..j] == items;
      return Success(());
    }

    /** Leaving `register_overrides`: every override is cleared, not only the ones it set. */
    method EndOverrides()
      modifies this
      ensures overrides == map[]
      ensures forall name :: GetOverride(name).None?
      ensures names == old(names) && prefs == old(prefs)
    {
      overrides := map[];
    }
  }
}
