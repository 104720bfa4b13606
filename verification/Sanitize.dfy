/** Sanitising a submit payload: credential fields are replaced, and secrets they held are masked wherever
    else they are echoed. */
module Sanitize {
  import opened Text
  import opened Json
  import opened Masking

  // ----- Keys -----

  function LowerChar(c: char): char {
    if 'A' <= c <= 'Z' then (c as int + 32) as char else c
  }

  /** `to_ascii_lowercase`. */
  function Lowercase(s: string): string {
    seq(|s|, i requires 0 <= i < |s| => LowerChar(s[i]))
  }

  const EXT_MESSAGE_TOKEN_KEYS: set<string> := {"extmessagetoken", "ext_message_token"}

  const CREDENTIAL_KEYS: set<string> := EXT_MESSAGE_TOKEN_KEYS + {
    "authorization", "accesstoken", "access_token", "refreshtoken", "refresh_token", "api_key", "apikey",
    "provider_api_key", "providerapikey", "secret", "secretkey", "secret_key", "secret_hash", "seed",
    "seedphrase", "seed_phrase", "mnemonic", "password", "password_hash", "passwd", "privatekey",
    "private_key", "signature", "unsigned", "signedmessagebody", "signed_message_body", "messageboc",
    "message_boc", "signedboc", "signed_boc" }

  predicate IsCredentialKey(key: string) {
    Lowercase(key) in CREDENTIAL_KEYS
  }

  predicate IsExtMessageTokenKey(key: string) {
    Lowercase(key) in EXT_MESSAGE_TOKEN_KEYS
  }

  // ----- The keys, spelled out -----

  /** Names under which a credential is expected, in their lowercase spellings. */
  const ACCESS_TOKENS: set<string> := {
    "authorization", "accesstoken", "access_token", "refreshtoken", "refresh_token", "api_key", "apikey",
    "provider_api_key", "providerapikey" }
  const SECRETS: set<string> := {"secret", "secretkey", "secret_key", "secret_hash", "privatekey", "private_key"}
  const PHRASES: set<string> := {
    "seed", "seedphrase", "seed_phrase", "mnemonic", "password", "password_hash", "passwd" }
  const SIGNED_PARTS: set<string> := {
    "signature", "unsigned", "signedmessagebody", "signed_message_body", "messageboc", "message_boc", "signedboc",
    "signed_boc" }
  const MESSAGE_TOKENS: set<string> := {"extmessagetoken", "ext_message_token"}

  function Capital(k: nat): char
    requires k < 26
  {
    ('A' as int + k) as char
  }

  function Small(k: nat): char
    requires k < 26
  {
    ('a' as int + k) as char
  }

  /** A character of a name: the `k`-th capital stands for the `k`-th small letter, any other for itself. */
  ghost predicate SameLetter(c: char, small: char) {
    || (exists k: nat :: k < 26 && c == Capital(k) && small == Small(k))
    || (c == small && forall k: nat :: k < 26 ==> c != Capital(k))
  }

  ghost predicate SpelledAs(key: string, name: string) {
    |key| == |name| && forall i :: 0 <= i < |key| ==> SameLetter(key[i], name[i])
  }

  /** The key is one of the names, in any mixture of cases. */
  ghost predicate Listed(key: string, names: set<string>) {
    exists name :: name in names && SpelledAs(key, name)
  }

  /** The field's value is replaced by the mask. */
  ghost predicate IsMasked(key: string) {
    Collects(key) || Listed(key, MESSAGE_TOKENS)
  }

  /** The strings below are secrets, wherever else they appear. */
  ghost predicate Collects(key: string) {
    Listed(key, ACCESS_TOKENS) || Listed(key, SECRETS) || Listed(key, PHRASES) || Listed(key, SIGNED_PARTS)
  }

  lemma LetterMeans(c: char, small: char)
    ensures SameLetter(c, small) <==> small == LowerChar(c)
  {
    if 'A' <= c <= 'Z' {
      assert c == Capital(c as int - 'A' as int);
    }
  }

  lemma SpellingMeans(key: string, name: string)
    ensures SpelledAs(key, name) <==> Lowercase(key) == name
  {
    hide SameLetter, LowerChar;
    forall i | 0 <= i < |key| && i < |name| ensures SameLetter(key[i], name[i]) <==> Lowercase(key)[i] == name[i] {
      LetterMeans(key[i], name[i]);
    }
    if SpelledAs(key, name) {
      assert Lowercase(key) == name;
    }
  }

  lemma ListedMeans(key: string, names: set<string>)
    ensures Listed(key, names) <==> Lowercase(key) in names
  {
    hide Lowercase, SpelledAs;
    forall name ensures SpelledAs(key, name) <==> Lowercase(key) == name {
      SpellingMeans(key, name);
    }
  }

  lemma TheLists(name: string)
    ensures name in CREDENTIAL_KEYS <==>
      name in ACCESS_TOKENS || name in SECRETS || name in PHRASES || name in SIGNED_PARTS || name in MESSAGE_TOKENS
    ensures name in EXT_MESSAGE_TOKEN_KEYS <==> name in MESSAGE_TOKENS
  {
  }

  lemma TokensAreApart(name: string)
    requires name in MESSAGE_TOKENS
    ensures name !in ACCESS_TOKENS && name !in SECRETS && name !in PHRASES && name !in SIGNED_PARTS
  {
    assert name[0] == 'e';
    NoLeadingE(name);
  }

  lemma NoLeadingE(name: string)
    ensures name in ACCESS_TOKENS || name in SECRETS || name in PHRASES || name in SIGNED_PARTS ==> name != "" && name[0] != 'e'
  {
    assert name in ACCESS_TOKENS ==> name[0] == 'a' || name[0] == 'r' || name[0] == 'p';
    assert name in SECRETS ==> name[0] == 's' || name[0] == 'p';
    assert name in PHRASES ==> name[0] == 's' || name[0] == 'm' || name[0] == 'p';
    assert name in SIGNED_PARTS ==> name[0] == 's' || name[0] == 'u' || name[0] == 'm';
  }

  /** The two key tests are these lists, whatever the case of the letters. */
  lemma KeysAreListed(key: string)
    ensures IsCredentialKey(key) <==> IsMasked(key)
    ensures IsCredentialKey(key) && !IsExtMessageTokenKey(key) <==> Collects(key)
  {
    hide Lowercase, Listed;
    ListedMeans(key, ACCESS_TOKENS);
    ListedMeans(key, SECRETS);
    ListedMeans(key, PHRASES);
    ListedMeans(key, SIGNED_PARTS);
    ListedMeans(key, MESSAGE_TOKENS);
    var name := Lowercase(key);
    TheLists(name);
    if name in MESSAGE_TOKENS {
      TokensAreApart(name);
    }
  }

  // ----- Secrets -----

  /** `collect_strings`: every non-empty string below a value. */
  function Strings(v: Value): set<string>
    decreases v, 0
  {
    match v
    case Str(s) => if s == "" then {} else {s}
    case Obj(fields) => StringsOfFields(fields)
    case Arr(items) => StringsOfItems(items)
    case _ => {}
  }

  function StringsOfFields(fields: seq<Field>): set<string>
    decreases fields, 0
  {
    if fields == [] then {} else Strings(fields[0].value) + StringsOfFields(fields[1..])
  }

  function StringsOfItems(items: seq<Value>): set<string>
    decreases items, 0
  {
    if items == [] then {} else Strings(items[0]) + StringsOfItems(items[1..])
  }

  /** `collect_echo_secrets`: the strings under credential keys, message tokens excepted. */
  function EchoSecrets(v: Value): set<string>
    decreases v, 0
  {
    match v
    case Obj(fields) => EchoSecretsOfFields(fields)
    case Arr(items) => EchoSecretsOfItems(items)
    case _ => {}
  }

  function EchoSecretsOfFields(fields: seq<Field>): set<string>
    decreases fields, 0
  {
    if fields == [] then {}
    else
      var f := fields[0];
      (if IsCredentialKey(f.key) && !IsExtMessageTokenKey(f.key) then Strings(f.value) else EchoSecrets(f.value))
      + EchoSecretsOfFields(fields[1..])
  }

  function EchoSecretsOfItems(items: seq<Value>): set<string>
    decreases items, 0
  {
    if items == [] then {} else EchoSecrets(items[0]) + EchoSecretsOfItems(items[1..])
  }

  /** The string at a position that lies below a credential key; `under` says one was already passed. */
  ghost function EchoAt(v: Value, path: seq<nat>, under: bool): Option<string>
    decreases |path|
  {
    if path == [] then (if v.Str? && under then Some(v.s) else None)
    else match v
      case Obj(fields) => if path[0] < |fields| then EchoInField(fields[path[0]], path, under) else None
      case Arr(items) => if path[0] < |items| then EchoAt(items[path[0]], path[1..], under) else None
      case _ => None
  }

  ghost function EchoInField(f: Field, path: seq<nat>, under: bool): Option<string>
    requires path != []
    decreases |path|, 0
  {
    EchoAt(f.value, path[1..], under || Collects(f.key))
  }

  function Gathered(v: Value, under: bool): set<string> {
    if under then Strings(v) else EchoSecrets(v)
  }

  function GatheredFields(fields: seq<Field>, under: bool): set<string> {
    if under then StringsOfFields(fields) else EchoSecretsOfFields(fields)
  }

  function GatheredItems(items: seq<Value>, under: bool): set<string> {
    if under then StringsOfItems(items) else EchoSecretsOfItems(items)
  }

  lemma GatheredHead(fields: seq<Field>, under: bool)
    requires fields != []
    ensures var f := fields[0];
      GatheredFields(fields, under) ==
      Gathered(f.value, under || Collects(f.key)) + GatheredFields(fields[1..], under)
  {
    hide IsCredentialKey, IsExtMessageTokenKey, Collects;
    KeysAreListed(fields[0].key);
  }

  lemma {:induction false} EchoIsGathered(v: Value, path: seq<nat>, under: bool)
    requires EchoAt(v, path, under).Some? && EchoAt(v, path, under).value != ""
    ensures EchoAt(v, path, under).value in Gathered(v, under)
    decreases |path|, 0
  {
    hide Collects;
    match v
    case Obj(fields) =>
      var f := fields[path[0]];
      var below := under || Collects(f.key);
      EchoIsGathered(f.value, path[1..], below);
      FieldIsGathered(fields, path[0], under);
    case Arr(items) =>
      EchoIsGathered(items[path[0]], path[1..], under);
      ItemIsGathered(items, path[0], under);
    case _ =>
  }

  lemma {:induction false} FieldIsGathered(fields: seq<Field>, k: nat, under: bool)
    requires k < |fields|
    ensures var f := fields[k];
      Gathered(f.value, under || Collects(f.key)) <= GatheredFields(fields, under)
  {
    hide Collects, Gathered, GatheredFields;
    GatheredHead(fields, under);
    if k > 0 {
      FieldIsGathered(fields[1..], k - 1, under);
    }
  }

  lemma GatheredItemsHead(items: seq<Value>, under: bool)
    requires items != []
    ensures GatheredItems(items, under) == Gathered(items[0], under) + GatheredItems(items[1..], under)
  {
  }

  lemma {:induction false} ItemIsGathered(items: seq<Value>, k: nat, under: bool)
    requires k < |items|
    ensures Gathered(items[k], under) <= GatheredItems(items, under)
  {
    hide Gathered, GatheredItems;
    GatheredItemsHead(items, under);
    if k > 0 {
      ItemIsGathered(items[1..], k - 1, under);
    }
  }

  lemma {:induction false} GatheredIsEcho(v: Value, s: string, under: bool) returns (path: seq<nat>)
    requires s in Gathered(v, under)
    ensures EchoAt(v, path, under) == Some(s) && s != ""
    decreases v, 0
  {
    hide Collects;
    path := [];
    match v
    case Obj(fields) =>
      var k, tail := GatheredInFields(fields, s, under);
      path := [k] + tail;
      assert path[1..] == tail;
    case Arr(items) =>
      var k, tail := GatheredInItems(items, s, under);
      path := [k] + tail;
      assert path[1..] == tail;
    case _ =>
  }

  lemma {:induction false} GatheredInFields(fields: seq<Field>, s: string, under: bool) returns (k: nat, tail: seq<nat>)
    requires s in GatheredFields(fields, under)
    ensures k < |fields| && s != ""
    ensures var f := fields[k];
      EchoAt(f.value, tail, under || Collects(f.key)) == Some(s)
    decreases fields, 0
  {
    hide Collects, Gathered;
    var f := fields[0];
    var below := under || Collects(f.key);
    GatheredHead(fields, under);
    if s in Gathered(f.value, below) {
      k := 0;
      tail := GatheredIsEcho(f.value, s, below);
    } else {
      k, tail := GatheredInFields(fields[1..], s, under);
      k := k + 1;
    }
  }

  lemma {:induction false} GatheredInItems(items: seq<Value>, s: string, under: bool) returns (k: nat, tail: seq<nat>)
    requires s in GatheredItems(items, under)
    ensures k < |items| && s != "" && EchoAt(items[k], tail, under) == Some(s)
    decreases items, 0
  {
    hide Gathered, EchoAt;
    assert items != [];
    GatheredItemsHead(items, under);
    if s in Gathered(items[0], under) {
      k := 0;
      tail := GatheredIsEcho(items[0], s, under);
    } else {
      k, tail := GatheredInItems(items[1..], s, under);
      k := k + 1;
    }
  }

  /** A string of the payload at a position below a key that collects. */
  ghost predicate IsSecret(v: Value, s: string) {
    s != "" && exists path :: EchoAt(v, path, false) == Some(s)
  }

  /** The collecting pass gathers exactly the non-empty strings below a credential key, at any depth. */
  lemma EchoSecretsMeans(v: Value, s: string)
    ensures s in EchoSecrets(v) <==> IsSecret(v, s)
  {
    hide EchoSecrets, EchoAt;
    if s in EchoSecrets(v) {
      var path := GatheredIsEcho(v, s, false);
    }
    if s != "" && exists path :: EchoAt(v, path, false) == Some(s) {
      var path :| EchoAt(v, path, false) == Some(s);
      EchoIsGathered(v, path, false);
    }
  }

  // ----- Sanitising -----

  /** The secrets long enough to be masked, longest first; a hash set fixes no order among equals. */
  ghost predicate MaskingOrder(order: seq<string>, secrets: set<string>) {
    (forall s :: s in order <==> s in secrets && Utf8Len(s) >= 8) && LongestFirst(order)
  }

  /** `sanitize_value`. */
  function Sanitized(v: Value, order: seq<string>): Value
    decreases v, 0
  {
    match v
    case Obj(fields) => Obj(SanitizedFields(fields, order))
    case Arr(items) => Arr(SanitizedItems(items, order))
    case Str(s) => Str(Mask(s, order))
    case _ => v
  }

  function SanitizedFields(fields: seq<Field>, order: seq<string>): seq<Field>
    decreases fields, 0
  {
    if fields == [] then []
    else
      var f := fields[0];
      [Field(f.key, if IsCredentialKey(f.key) then Str(REDACTED) else Sanitized(f.value, order))]
      + SanitizedFields(fields[1..], order)
  }

  function SanitizedItems(items: seq<Value>, order: seq<string>): seq<Value>
    decreases items, 0
  {
    if items == [] then [] else [Sanitized(items[0], order)] + SanitizedItems(items[1..], order)
  }

  /** `sanitize_onchain_submit_payload`: one collecting pass, one rewriting pass. */
  ghost predicate IsSanitized(v: Value, r: Value) {
    exists order :: MaskingOrder(order, EchoSecrets(v)) && r == Sanitized(v, order)
  }

  method CollectStrings(v: Value, before: set<string>) returns (secrets: set<string>)
    ensures secrets == before + Strings(v)
    decreases v
  {
    secrets := before;
    match v
    case Str(s) =>
      if s != "" {
        secrets := secrets + {s};
      }
    case Obj(fields) =>
      for k := 0 to |fields|
        invariant secrets + StringsOfFields(fields[k..]) == before + StringsOfFields(fields)
      {
        secrets := CollectStrings(fields[k].value, secrets);
      }
    case Arr(items) =>
      for k := 0 to |items|
        invariant secrets + StringsOfItems(items[k..]) == before + StringsOfItems(items)
      {
        secrets := CollectStrings(items[k], secrets);
      }
    case _ =>
  }

  method CollectEchoSecrets(v: Value, before: set<string>) returns (secrets: set<string>)
    ensures secrets == before + EchoSecrets(v)
    decreases v
  {
    hide IsCredentialKey, IsExtMessageTokenKey, Strings;
    secrets := before;
    match v
    case Obj(fields) =>
      for k := 0 to |fields|
        invariant secrets + EchoSecretsOfFields(fields[k..]) == before + EchoSecretsOfFields(fields)
      {
        var f := fields[k];
        if IsCredentialKey(f.key) && !IsExtMessageTokenKey(f.key) {
          secrets := CollectStrings(f.value, secrets);
        } else {
          secrets := CollectEchoSecrets(f.value, secrets);
        }
      }
    case Arr(items) =>
      for k := 0 to |items|
        invariant secrets + EchoSecretsOfItems(items[k..]) == before + EchoSecretsOfItems(items)
      {
        secrets := CollectEchoSecrets(items[k], secrets);
      }
    case _ =>
  }

  function InsertByLength(order: seq<string>, s: string): seq<string> {
    if order == [] || Utf8Len(order[0]) <= Utf8Len(s) then [s] + order
    else [order[0]] + InsertByLength(order[1..], s)
  }

  lemma {:induction false} InsertKeepsOrder(order: seq<string>, s: string)
    requires LongestFirst(order) && s !in order
    ensures LongestFirst(InsertByLength(order, s))
    ensures forall t :: t in InsertByLength(order, s) <==> t == s || t in order
  {
    hide Utf8Len;
    if order != [] && !(Utf8Len(order[0]) <= Utf8Len(s)) {
      InsertKeepsOrder(order[1..], s);
      var tail, all := InsertByLength(order[1..], s), InsertByLength(order, s);
      assert order == [order[0]] + order[1..];
      forall j | 0 < j < |all| ensures Utf8Len(all[0]) >= Utf8Len(all[j]) && all[0] != all[j] {
        assert all[j] == tail[j - 1] && tail[j - 1] in tail;
      }
    }
  }

  /** The filter by length and the sort, from whatever order the hash set iterates in. */
  method OrderSecrets(secrets: set<string>) returns (order: seq<string>)
    ensures MaskingOrder(order, secrets)
  {
    hide Utf8Len, InsertByLength;
    var left := secrets;
    order := [];
    while left != {}
      invariant left <= secrets && LongestFirst(order)
      invariant forall s :: s in order <==> s in secrets - left && Utf8Len(s) >= 8
      decreases left
    {
      var s :| s in left;
      if Utf8Len(s) >= 8 {
        InsertKeepsOrder(order, s);
        order := InsertByLength(order, s);
      }
      left := left - {s};
    }
  }

  method SanitizePayload(v: Value) returns (r: Value)
    ensures IsSanitized(v, r)
  {
    var secrets := CollectEchoSecrets(v, {});
    var order := OrderSecrets(secrets);
    r := Sanitized(v, order);
  }

  // ----- Structure -----

  /** The same keys in the same places, the same array lengths and the same leaves, except that credential
      fields hold the mask and strings may differ. */
  ghost predicate SameShape(v: Value, w: Value)
    decreases v, 0
  {
    match v
    case Obj(fields) => w.Obj? && SameFields(fields, w.fields)
    case Arr(items) => w.Arr? && SameItems(items, w.items)
    case Str(_) => w.Str?
    case _ => w == v
  }

  ghost predicate SameFields(a: seq<Field>, b: seq<Field>)
    decreases a, 0
  {
    && |a| == |b|
    && (a != [] ==>
          && a[0].key == b[0].key
          && (if IsMasked(a[0].key) then b[0].value == Str(REDACTED) else SameShape(a[0].value, b[0].value))
          && SameFields(a[1..], b[1..]))
  }

  ghost predicate SameItems(a: seq<Value>, b: seq<Value>)
    decreases a, 0
  {
    |a| == |b| && (a != [] ==> SameShape(a[0], b[0]) && SameItems(a[1..], b[1..]))
  }

  lemma {:induction false} SanitizingKeepsShape(v: Value, order: seq<string>)
    ensures SameShape(v, Sanitized(v, order))
    decreases v, 0
  {
    match v
    case Obj(fields) => FieldsKeepShape(fields, order);
    case Arr(items) => ItemsKeepShape(items, order);
    case _ =>
  }

  lemma {:induction false} FieldsKeepShape(fields: seq<Field>, order: seq<string>)
    ensures SameFields(fields, SanitizedFields(fields, order))
    decreases fields, 0
  {
    hide IsCredentialKey, IsMasked, Sanitized, SameShape;
    if fields != [] {
      KeysAreListed(fields[0].key);
      SanitizingKeepsShape(fields[0].value, order);
      FieldsKeepShape(fields[1..], order);
    }
  }

  lemma {:induction false} ItemsKeepShape(items: seq<Value>, order: seq<string>)
    ensures SameItems(items, SanitizedItems(items, order))
    decreases items, 0
  {
    if items != [] {
      SanitizingKeepsShape(items[0], order);
      ItemsKeepShape(items[1..], order);
    }
  }

  // ----- What is left to read -----

  lemma {:induction false} FieldAt(fields: seq<Field>, order: seq<string>, k: nat)
    ensures |SanitizedFields(fields, order)| == |fields|
    ensures k < |fields| ==>
      var f := fields[k];
      SanitizedFields(fields, order)[k] == Field(f.key, if IsCredentialKey(f.key) then Str(REDACTED) else Sanitized(f.value, order))
    decreases |fields|
  {
    hide IsCredentialKey, Sanitized;
    if fields != [] {
      FieldAt(fields[1..], order, if k > 0 then k - 1 else 0);
    }
  }

  lemma {:induction false} ItemAt(items: seq<Value>, order: seq<string>, k: nat)
    ensures |SanitizedItems(items, order)| == |items|
    ensures k < |items| ==> SanitizedItems(items, order)[k] == Sanitized(items[k], order)
    decreases |items|
  {
    hide Sanitized;
    if items != [] {
      ItemAt(items[1..], order, if k > 0 then k - 1 else 0);
    }
  }

  /** The string at a position, wherever it lies. */
  function TextAt(v: Value, path: seq<nat>): Option<string>
    decreases |path|
  {
    if path == [] then (if v.Str? then Some(v.s) else None)
    else match v
      case Obj(fields) => if path[0] < |fields| then TextAt(fields[path[0]].value, path[1..]) else None
      case Arr(items) => if path[0] < |items| then TextAt(items[path[0]], path[1..]) else None
      case _ => None
  }

  /** The value at a position that is not below a key whose value is masked. */
  ghost function Outside(v: Value, path: seq<nat>): Option<Value>
    decreases |path|
  {
    if path == [] then Some(v)
    else match v
      case Obj(fields) =>
        if path[0] < |fields| && !IsMasked(fields[path[0]].key) then Outside(fields[path[0]].value, path[1..]) else None
      case Arr(items) => if path[0] < |items| then Outside(items[path[0]], path[1..]) else None
      case _ => None
  }

  /** Outside, each text goes through the masking loop, and each masked field holds the mask. */
  lemma {:induction false} OutsideIsRewritten(v: Value, order: seq<string>, path: seq<nat>)
    requires Outside(v, path).Some?
    ensures match Outside(v, path).value
      case Str(s) => TextAt(Sanitized(v, order), path) == Some(Mask(s, order))
      case Obj(fields) => forall k: nat :: k < |fields| && IsMasked(fields[k].key) ==>
        TextAt(Sanitized(v, order), path + [k]) == Some(REDACTED)
      case _ => true
    decreases |path|
  {
    hide IsCredentialKey, IsMasked, Mask;
    if path == [] {
      if v.Obj? {
        forall k: nat | k < |v.fields| && IsMasked(v.fields[k].key)
          ensures TextAt(Sanitized(v, order), [k]) == Some(REDACTED)
        {
          KeysAreListed(v.fields[k].key);
          FieldAt(v.fields, order, k);
          assert [k][1..] == [];
        }
        assert forall k: nat :: path + [k] == [k];
      }
    } else {
      assert forall k: nat :: (path + [k])[1..] == path[1..] + [k];
      match v
      case Obj(fields) =>
        KeysAreListed(fields[path[0]].key);
        FieldAt(fields, order, path[0]);
        OutsideIsRewritten(fields[path[0]].value, order, path[1..]);
      case Arr(items) =>
        ItemAt(items, order, path[0]);
        OutsideIsRewritten(items[path[0]], order, path[1..]);
    }
  }

  /** Whatever its case, a key of the lists has its value replaced by the mask. */
  lemma CredentialsAreMasked(v: Value, r: Value, path: seq<nat>, k: nat)
    requires IsSanitized(v, r)
    requires Outside(v, path).Some? && Outside(v, path).value.Obj? && k < |Outside(v, path).value.fields|
    requires IsMasked(Outside(v, path).value.fields[k].key)
    ensures TextAt(r, path + [k]) == Some(REDACTED)
  {
    hide Sanitized, EchoSecrets, Mask, Utf8Len, Outside, TextAt, IsMasked;
    var order :| MaskingOrder(order, EchoSecrets(v)) && r == Sanitized(v, order);
    OutsideIsRewritten(v, order, path);
  }

  /** Under any other key a text that holds no secret of eight bytes stays as it is. */
  lemma OtherTextIsKept(v: Value, r: Value, path: seq<nat>, s: string)
    requires IsSanitized(v, r) && Outside(v, path) == Some(Str(s))
    requires forall t :: IsSecret(v, t) && Utf8Len(t) >= 8 ==> Find(s, t).None?
    ensures TextAt(r, path) == Some(s)
  {
    hide Sanitized, EchoSecrets, Mask, Utf8Len, Outside, TextAt, Find, IsSecret;
    var order :| MaskingOrder(order, EchoSecrets(v)) && r == Sanitized(v, order);
    OutsideIsRewritten(v, order, path);
    forall i | 0 <= i < |order| ensures order[i] != "" && Find(s, order[i]).None? {
      assert order[i] in order;
      NoBytes(order[i]);
      EchoSecretsMeans(v, order[i]);
    }
    MaskLeavesOtherText(s, order);
  }

  /** The one sanitised form of a lone credential, for a spelling that mixes cases. */
  lemma AuthorizationIsMasked(s: string, r: Value)
    requires IsSanitized(Obj([Field("Authorization", Str(s))]), r)
    ensures r == Obj([Field("Authorization", Str("<redacted>"))])
  {
    hide Mask, EchoSecrets, Utf8Len, IsCredentialKey;
    var f := Field("Authorization", Str(s));
    var order :| MaskingOrder(order, EchoSecrets(Obj([f]))) && r == Sanitized(Obj([f]), order);
    MixedCase();
    assert REDACTED == "<redacted>";
    KeysAreListed(f.key);
    assert SanitizedFields([f], order) == [Field(f.key, Str(REDACTED))] + SanitizedFields([f][1..], order);
  }

  lemma MixedCase()
    ensures IsMasked("Authorization") && Collects("Authorization")
  {
    var key, name := "Authorization", "authorization";
    forall i | 0 <= i < |key| ensures SameLetter(key[i], name[i]) {
      LetterMeans(key[i], name[i]);
    }
    assert SpelledAs(key, name);
    assert name in ACCESS_TOKENS;
  }

  /** Every string of a sanitised value is the mask or went through the masking loop. */
  lemma {:induction false} TextIsMasked(v: Value, order: seq<string>, path: seq<nat>) returns (text: string)
    requires TextAt(Sanitized(v, order), path).Some?
    ensures TextAt(Sanitized(v, order), path).value in {REDACTED, Mask(text, order)}
    decreases |path|
  {
    hide IsCredentialKey, Mask;
    text := "";
    match v
    case Obj(fields) =>
      FieldAt(fields, order, path[0]);
      if !IsCredentialKey(fields[path[0]].key) {
        text := TextIsMasked(fields[path[0]].value, order, path[1..]);
      }
    case Arr(items) =>
      ItemAt(items, order, path[0]);
      text := TextIsMasked(items[path[0]], order, path[1..]);
    case Str(s) => text := s;
    case _ =>
  }

  /** Somewhere in the strings of a value the secret can be read. */
  ghost predicate Readable(v: Value, s: string) {
    exists path :: TextAt(v, path).Some? && Find(TextAt(v, path).value, s).Some?
  }

  /** No secret of at least eight bytes that does not overlap the mask is left in any string of the result,
      however often it was echoed and whatever other secrets were masked with it. */
  lemma NoSecretSurvives(v: Value, r: Value, s: string)
    requires IsSanitized(v, r) && IsSecret(v, s) && Utf8Len(s) >= 8 && !Overlaps(s)
    ensures !Readable(r, s)
  {
    hide Sanitized, EchoSecrets, EchoAt, TextAt, Find, Mask, Utf8Len, Overlaps;
    EchoSecretsMeans(v, s);
    var order :| MaskingOrder(order, EchoSecrets(v)) && r == Sanitized(v, order);
    forall path | TextAt(r, path).Some? ensures Find(TextAt(r, path).value, s).None? {
      var text := TextIsMasked(v, order, path);
      NoBytes(s);
      NotInMask(s);
      NotInMasked(text, order, s);
    }
  }

  lemma NotInMasked(text: string, order: seq<string>, s: string)
    requires s in order && !Overlaps(s) && forall t :: t in order ==> Utf8Len(t) >= 8
    ensures Find(Mask(text, order), s).None?
  {
    hide Find, Mask, Utf8Len, Overlaps;
    var i :| 0 <= i < |order| && order[i] == s;
    forall k | 0 <= k < |order| ensures order[k] != "" {
      NoBytes(order[k]);
    }
    MaskHoldsNoSecret(text, order, i);
  }

  function Texts(order: seq<string>): seq<Value> {
    if order == [] then [] else [Str(order[0])] + Texts(order[1..])
  }

  const KEY: string := "seed"

  lemma SeedIsCollected()
    ensures IsCredentialKey(KEY) && !IsExtMessageTokenKey(KEY)
  {
    assert Lowercase(KEY) == KEY;
  }

  /** A payload with these secrets that echoes a text. */
  function Payload(secrets: seq<string>, text: string): Value {
    Arr([Obj([Field(KEY, Arr(Texts(secrets)))]), Str(text)])
  }

  lemma {:induction false} TextsHold(secrets: seq<string>, s: string)
    requires forall i :: 0 <= i < |secrets| ==> secrets[i] != ""
    ensures s in StringsOfItems(Texts(secrets)) <==> s in secrets
  {
    if secrets != [] {
      TextsHold(secrets[1..], s);
    }
  }

  lemma PayloadSecrets(secrets: seq<string>, text: string, s: string)
    requires forall i :: 0 <= i < |secrets| ==> secrets[i] != ""
    ensures s in EchoSecrets(Payload(secrets, text)) <==> s in secrets
  {
    hide IsCredentialKey, IsExtMessageTokenKey, Texts;
    SeedIsCollected();
    TextsHold(secrets, s);
    var fields := [Field(KEY, Arr(Texts(secrets)))];
    assert fields[1..] == [] && EchoSecretsOfFields(fields[1..]) == {};
    assert EchoSecretsOfFields(fields) == Strings(Arr(Texts(secrets)));
    var items := [Obj(fields), Str(text)];
    assert items[1..] == [Str(text)] && items[1..][1..] == [] && EchoSecretsOfItems([]) == {};
    assert EchoSecretsOfItems(items[1..]) == EchoSecrets(Str(text)) + EchoSecretsOfItems([]) == {};
    assert EchoSecretsOfItems(items) == EchoSecrets(Obj(fields));
  }

  lemma PayloadShows(secrets: seq<string>, text: string, order: seq<string>, s: string)
    requires Find(Mask(text, order), s).Some?
    ensures Readable(Sanitized(Payload(secrets, text), order), s)
  {
    hide Find, Mask, IsCredentialKey, SanitizedFields;
    var v := Payload(secrets, text);
    var r := Sanitized(v, order);
    ItemAt(v.items, order, 1);
    assert [1][1..] == [];
    assert TextAt(r, [1]) == Some(Mask(text, order));
  }

  /** A payload in which the secret stays readable, unless it is long enough and does not overlap. */
  lemma Survives(s: string) returns (v: Value, r: Value)
    requires s != "" && (Utf8Len(s) < 8 || Overlaps(s))
    ensures IsSanitized(v, r) && IsSecret(v, s) && Readable(r, s)
  {
    hide Find, Mask, Utf8Len, Overlaps, EchoSecrets, EchoAt, Sanitized, Readable, Payload;
    var text, secrets, order := s, [s], [];
    if Utf8Len(s) < 8 {
      FindSelf(s);
      NothingToMask(s);
    } else {
      text, order := OverlapShows(s);
      secrets := order;
      LongIsMaskable(order);
    }
    v := Payload(secrets, text);
    r := Sanitized(v, order);
    forall t ensures t in EchoSecrets(v) <==> t in secrets {
      PayloadSecrets(secrets, text, t);
    }
    PayloadShows(secrets, text, order, s);
    EchoSecretsMeans(v, s);
    assert MaskingOrder(order, EchoSecrets(v));
  }

  lemma NothingToMask(text: string)
    ensures Mask(text, []) == text
  {
  }

  /** What sanitising promises, exactly: a secret is unreadable in every sanitised payload if and only if it
      has at least eight bytes and does not overlap the mask. */
  lemma HiddenInEveryPayload(s: string)
    requires s != ""
    ensures (forall v, r :: IsSanitized(v, r) && IsSecret(v, s) ==> !Readable(r, s))
      <==> Utf8Len(s) >= 8 && !Overlaps(s)
  {
    hide IsSanitized, IsSecret, Readable, Utf8Len, Overlaps;
    if Utf8Len(s) >= 8 && !Overlaps(s) {
      forall v, r | IsSanitized(v, r) && IsSecret(v, s) ensures !Readable(r, s) {
        NoSecretSurvives(v, r, s);
      }
    } else {
      var v, r := Survives(s);
    }
  }

  // ----- Idempotence -----

  /** A value with the shape of something sanitised holds the mask, and only the mask, under credential
      keys, so a second collecting pass finds at most the mask. */
  lemma {:induction false} OnlyTheMaskIsCollected(v: Value, w: Value)
    requires SameShape(v, w)
    ensures EchoSecrets(w) <= {REDACTED}
    decreases v, 0
  {
    match v
    case Obj(fields) => OnlyTheMaskInFields(fields, w.fields);
    case Arr(items) => OnlyTheMaskInItems(items, w.items);
    case _ =>
  }

  lemma {:induction false} OnlyTheMaskInFields(a: seq<Field>, b: seq<Field>)
    requires SameFields(a, b)
    ensures EchoSecretsOfFields(b) <= {REDACTED}
    decreases a, 0
  {
    hide IsCredentialKey, IsExtMessageTokenKey, IsMasked;
    if a != [] {
      KeysAreListed(a[0].key);
      if !IsMasked(a[0].key) {
        OnlyTheMaskIsCollected(a[0].value, b[0].value);
      }
      OnlyTheMaskInFields(a[1..], b[1..]);
    }
  }

  lemma {:induction false} OnlyTheMaskInItems(a: seq<Value>, b: seq<Value>)
    requires SameItems(a, b)
    ensures EchoSecretsOfItems(b) <= {REDACTED}
    decreases a, 0
  {
    if a != [] {
      OnlyTheMaskIsCollected(a[0], b[0]);
      OnlyTheMaskInItems(a[1..], b[1..]);
    }
  }

  /** And with nothing but the mask to mask, the second rewriting pass is the identity. */
  lemma {:induction false} SecondPassIsIdentity(v: Value, w: Value, order: seq<string>)
    requires SameShape(v, w) && forall i :: 0 <= i < |order| ==> order[i] == REDACTED
    ensures Sanitized(w, order) == w
    decreases v, 0
  {
    match v
    case Obj(fields) => SecondPassFields(fields, w.fields, order);
    case Arr(items) => SecondPassItems(items, w.items, order);
    case Str(_) => MaskRedacted(w.s, order);
    case _ =>
  }

  lemma {:induction false} SecondPassFields(a: seq<Field>, b: seq<Field>, order: seq<string>)
    requires SameFields(a, b) && forall i :: 0 <= i < |order| ==> order[i] == REDACTED
    ensures SanitizedFields(b, order) == b
    decreases a, 0
  {
    hide IsCredentialKey, IsMasked, Sanitized, SameShape;
    if a != [] {
      KeysAreListed(a[0].key);
      if !IsMasked(a[0].key) {
        SecondPassIsIdentity(a[0].value, b[0].value, order);
      }
      SecondPassFields(a[1..], b[1..], order);
      assert b == [b[0]] + b[1..];
    }
  }

  lemma {:induction false} SecondPassItems(a: seq<Value>, b: seq<Value>, order: seq<string>)
    requires SameItems(a, b) && forall i :: 0 <= i < |order| ==> order[i] == REDACTED
    ensures SanitizedItems(b, order) == b
    decreases a, 0
  {
    hide Sanitized, SameShape;
    if a != [] {
      SecondPassIsIdentity(a[0], b[0], order);
      SecondPassItems(a[1..], b[1..], order);
      assert b == [b[0]] + b[1..];
    }
  }

  /** Sanitising twice is sanitising once, whatever order the hash sets iterate in. */
  lemma SanitizingIsIdempotent(v: Value, once: Value, twice: Value)
    requires IsSanitized(v, once) && IsSanitized(once, twice)
    ensures twice == once
  {
    hide Sanitized, EchoSecrets, SameShape, Utf8Len;
    var first :| MaskingOrder(first, EchoSecrets(v)) && once == Sanitized(v, first);
    var second :| MaskingOrder(second, EchoSecrets(once)) && twice == Sanitized(once, second);
    SanitizingKeepsShape(v, first);
    OnlyTheMaskIsCollected(v, once);
    forall i | 0 <= i < |second| ensures second[i] == REDACTED {
      assert second[i] in second;
    }
    SecondPassIsIdentity(v, once, second);
  }
}
