/**
 * The log-redaction helpers of server.js: `maskIdentifier`, which hides all but the
 * last four characters of an identifier, and `sanitizeArgs`, which copies a tool call's
 * arguments with credentials and note contents replaced by a placeholder.
 */
module Redaction {
  import opened Wrappers

  /** What `maskIdentifier` prints for a missing identifier. */
  const UndefinedText: string := "<sin definir>"

  /** What `sanitizeArgs` puts in place of a hidden value. */
  const RedactedText: string := "<redacted>"

  /** `'*'.repeat(n)`. */
  function Stars(n: nat): (r: string)
    ensures |r| == n && forall i :: 0 <= i < n ==> r[i] == '*'
  {
    seq(n, _ => '*')
  }

  /**
   * `maskIdentifier` on the identifier read from the environment: `None` is an unset
   * variable. A falsy value (unset or empty) prints as `<sin definir>`; up to four
   * characters print as as many asterisks; a longer one keeps its last four.
   */
  function MaskIdentifier(value: Option<string>): (r: string)
    ensures r == UndefinedText <==> value == None || value == Some("")
    ensures value.Some? && 0 < |value.value| <= 4 ==>
      |r| == |value.value| && forall i :: 0 <= i < |r| ==> r[i] == '*'
    ensures value.Some? && |value.value| > 4 ==>
      var s := value.value;
      |r| == |s| && r[|s| - 4..] == s[|s| - 4..]
      && forall i :: 0 <= i < |s| - 4 ==> r[i] == '*'
  {
    if value.None? || value.value == "" then UndefinedText
    else
      var s := value.value;
      if |s| <= 4 then Stars(|s|)
      else
        var r := Stars(|s| - 4) + s[|s| - 4..];
        assert r[0] == '*' != UndefinedText[0];
        r
  }

  /**
   * The masked form reveals the length of the identifier and its last four characters
   * and nothing else: two identifiers that agree on those mask alike.
   */
  lemma MaskRevealsOnlyLengthAndTail(s: string, t: string)
    requires |s| == |t|
    requires |s| <= 4 || s[|s| - 4..] == t[|t| - 4..]
    ensures MaskIdentifier(Some(s)) == MaskIdentifier(Some(t))
  {
  }

  /**
   * The prototype of an object: `Object.prototype` (a plain object), `null`, or some
   * other object (an instance of a class, or whatever was assigned to `__proto__`).
   */
  datatype Proto = ObjectPrototype | NullPrototype | OtherPrototype

  /**
   * A JavaScript value as `sanitizeArgs` sees it. An object is its prototype and its own
   * enumerable string-keyed properties, in the order `Object.entries` lists them.
   */
  datatype Json =
    | Null
    | Bool(b: bool)
    | Num(n: real)
    | Str(s: string)
    | Arr(items: seq<Json>)
    | Obj(proto: Proto, entries: seq<(string, Json)>)

  /** `isPlainObject`: a non-null object whose prototype is `Object.prototype`. */
  predicate IsPlainObject(value: Json)
  {
    value.Obj? && value.proto == ObjectPrototype
  }

  /** The fresh accumulator `{}` of the `reduce`. */
  const EmptyObject: Json := Obj(ObjectPrototype, [])

  /**
   * `toLowerCase` as far as the key tests can observe it: the letters A to Z, and the
   * Kelvin sign, which lower-cases to `k`.
   */
  function LowerChar(c: char): char
  {
    if 'A' <= c <= 'Z' then (c as int + 32) as char
    else if c == '\U{212A}' then 'k'
    else c
  }

  function Lower(s: string): (r: string)
    ensures |r| == |s| && forall i :: 0 <= i < |s| ==> r[i] == LowerChar(s[i])
  {
    seq(|s|, i requires 0 <= i < |s| => LowerChar(s[i]))
  }

  /** `s.includes(sub)`. */
  predicate Contains(s: string, sub: string)
  {
    sub <= s || (|s| > 0 && Contains(s[1..], sub))
  }

  /** `sub` occurs in `s` at position `i`. */
  predicate OccursAt(s: string, sub: string, i: int)
  {
    0 <= i <= |s| - |sub| && s[i..i + |sub|] == sub
  }

  /** `includes` holds exactly when the word occurs at some position. */
  lemma {:induction false} ContainsIffOccurs(s: string, sub: string)
    ensures Contains(s, sub) <==> exists i :: OccursAt(s, sub, i)
    decreases |s|
  {
    if sub <= s {
      assert OccursAt(s, sub, 0);
    } else if |s| > 0 {
      ContainsIffOccurs(s[1..], sub);
      if Contains(s[1..], sub) {
        var i :| OccursAt(s[1..], sub, i);
        assert s[1..][i..i + |sub|] == s[i + 1..i + 1 + |sub|];
        assert OccursAt(s, sub, i + 1);
      }
      if exists i :: OccursAt(s, sub, i) {
        var i :| OccursAt(s, sub, i);
        assert i > 0;
        assert s[1..][i - 1..i - 1 + |sub|] == s[i..i + |sub|];
        assert OccursAt(s[1..], sub, i - 1);
      }
    }
  }

  /** Lower-casing leaves no letter A to Z, so lower-casing again changes nothing. */
  lemma LowerIdempotent(s: string)
    ensures forall i :: 0 <= i < |s| ==> !('A' <= Lower(s)[i] <= 'Z')
    ensures Lower(Lower(s)) == Lower(s)
  {
  }

  /** A key whose value is always hidden: it names a token or a secret. */
  predicate SecretKey(key: string)
  {
    var lower := Lower(key);
    Contains(lower, "token") || Contains(lower, "secret")
  }

  /** A key whose string value is hidden: it names note text or other user content. */
  predicate ContentKey(key: string)
  {
    var lower := Lower(key);
    Contains(lower, "text") || Contains(lower, "content") || Contains(lower, "reminder")
    || Contains(lower, "subject") || Contains(lower, "description")
  }

  /** The keys of a property list. */
  function Keys(entries: seq<(string, Json)>): set<string>
  {
    set i | 0 <= i < |entries| :: entries[i].0
  }

  lemma KeysCons(p: (string, Json), rest: seq<(string, Json)>)
    ensures Keys([p] + rest) == {p.0} + Keys(rest)
  {
    var s := [p] + rest;
    forall k | k in Keys(s) ensures k in {p.0} + Keys(rest) {
      var i :| 0 <= i < |s| && s[i].0 == k;
      if i > 0 { assert rest[i - 1].0 == k; }
    }
    forall k | k in Keys(rest) ensures k in Keys(s) {
      var i :| 0 <= i < |rest| && rest[i].0 == k;
      assert s[i + 1].0 == k;
    }
    assert s[0].0 == p.0;
  }

  /** No key occurs twice, as in the own properties of any object. */
  predicate UniqueKeys(entries: seq<(string, Json)>)
  {
    forall i, j :: 0 <= i < j < |entries| ==> entries[i].0 != entries[j].0
  }

  /** The value of the first property named `key`. */
  function Lookup(entries: seq<(string, Json)>, key: string): (r: Option<Json>)
    ensures r.Some? <==> key in Keys(entries)
  {
    if |entries| == 0 then None
    else if entries[0].0 == key then Some(entries[0].1)
    else
      KeysCons(entries[0], entries[1..]);
      Lookup(entries[1..], key)
  }

  /**
   * Ordinary property assignment `o[key] = value`: an existing property keeps its place
   * and takes the new value, a new one is added at the end.
   */
  function Assign(entries: seq<(string, Json)>, key: string, value: Json)
    : (r: seq<(string, Json)>)
    ensures key !in Keys(entries) ==> r == entries + [(key, value)]
    ensures forall p :: p in r ==> p in entries || p == (key, value)
  {
    if |entries| == 0 then [(key, value)]
    else if entries[0].0 == key then [(key, value)] + entries[1..]
    else
      KeysCons(entries[0], entries[1..]);
      [entries[0]] + Assign(entries[1..], key, value)
  }

  /**
   * `acc[key] = value` on the accumulator. While the object still inherits the
   * `__proto__` accessor from `Object.prototype`, assigning `__proto__` creates no
   * property: an object or `null` becomes the prototype, anything else is ignored.
   */
  function Put(acc: Json, key: string, value: Json): (r: Json)
    requires acc.Obj?
    ensures r.Obj?
  {
    if key == "__proto__" && acc.proto != NullPrototype then
      if value.Null? then acc.(proto := NullPrototype)
      else if value.Arr? || value.Obj? then acc.(proto := OtherPrototype)
      else acc
    else acc.(entries := Assign(acc.entries, key, value))
  }

  /** The `reduce`: the assignments of `pairs`, in order, on `acc`. */
  function PutAll(acc: Json, pairs: seq<(string, Json)>): (r: Json)
    requires acc.Obj?
    ensures r.Obj?
  {
    if |pairs| == 0 then acc
    else
      var n := |pairs| - 1;
      Put(PutAll(acc, pairs[..n]), pairs[n].0, pairs[n].1)
  }

  /**
   * What the `reduce` assigns to `key` for the original `value`: the placeholder for a
   * secret key, the placeholder for a string under a content key, otherwise the
   * sanitized value.
   */
  function EntryValue(key: string, value: Json): Json
    decreases value, 2
  {
    if SecretKey(key) then Str(RedactedText)
    else if value.Str? && ContentKey(key) then Str(RedactedText)
    else Sanitize(value)
  }

  /** Each property with the value the `reduce` assigns to it. */
  function SanitizePairs(entries: seq<(string, Json)>, ghost parent: Json): (r: seq<(string, Json)>)
    requires forall i :: 0 <= i < |entries| ==> entries[i].1 < parent
    ensures |r| == |entries|
    ensures forall i :: 0 <= i < |entries| ==>
      r[i] == (entries[i].0, EntryValue(entries[i].0, entries[i].1))
    decreases parent, 0, |entries|
  {
    if |entries| == 0 then []
    else
      var n := |entries| - 1;
      SanitizePairs(entries[..n], parent) + [(entries[n].0, EntryValue(entries[n].0, entries[n].1))]
  }

  /**
   * `sanitizeArgs`: arrays element by element, a plain object through the `reduce` into
   * a fresh `{}`, everything else (primitives, objects of other prototypes) as it is.
   */
  function Sanitize(input: Json): Json
    decreases input, 1
  {
    match input
    case Arr(items) => Arr(seq(|items|, i requires 0 <= i < |items| => Sanitize(items[i])))
    case Obj(_, entries) =>
      if IsPlainObject(input) then PutAll(EmptyObject, SanitizePairs(entries, input))
      else input
    case _ => input
  }

  /** `value` is an object or `null`, what the `__proto__` setter accepts. */
  predicate ObjectOrNull(value: Json)
  {
    value.Null? || value.Arr? || value.Obj?
  }

  /** Some property named `__proto__` is assigned an object or `null`. */
  predicate ProtoAssigned(pairs: seq<(string, Json)>)
  {
    exists i :: 0 <= i < |pairs| && pairs[i].0 == "__proto__" && ObjectOrNull(pairs[i].1)
  }

  /** The properties other than `__proto__`, in order. */
  function WithoutProtoKey(pairs: seq<(string, Json)>): (r: seq<(string, Json)>)
    ensures forall p :: p in r <==> p in pairs && p.0 != "__proto__"
  {
    if |pairs| == 0 then []
    else
      var n := |pairs| - 1;
      assert pairs == pairs[..n] + [pairs[n]];
      WithoutProtoKey(pairs[..n]) + if pairs[n].0 == "__proto__" then [] else [pairs[n]]
  }

  lemma WithoutProtoKeyKeys(pairs: seq<(string, Json)>)
    ensures Keys(WithoutProtoKey(pairs)) == Keys(pairs) - {"__proto__"}
  {
    var r := WithoutProtoKey(pairs);
    forall k | k in Keys(r) ensures k in Keys(pairs) && k != "__proto__" {
      var i :| 0 <= i < |r| && r[i].0 == k;
      assert r[i] in r;
      var j :| 0 <= j < |pairs| && pairs[j] == r[i];
    }
    forall k | k in Keys(pairs) && k != "__proto__" ensures k in Keys(r) {
      var i :| 0 <= i < |pairs| && pairs[i].0 == k;
      assert pairs[i] in pairs;
      var j :| 0 <= j < |r| && r[j] == pairs[i];
    }
  }

  lemma {:induction false} WithoutProtoKeyNoop(pairs: seq<(string, Json)>)
    requires "__proto__" !in Keys(pairs)
    ensures WithoutProtoKey(pairs) == pairs
  {
    if |pairs| > 0 {
      var n := |pairs| - 1;
      assert pairs == pairs[..n] + [pairs[n]];
      KeysAppend(pairs[..n], [pairs[n]]);
      assert pairs[n].0 in Keys([pairs[n]]);
      WithoutProtoKeyNoop(pairs[..n]);
    }
  }

  lemma {:induction false} WithoutProtoKeyUnique(pairs: seq<(string, Json)>)
    requires UniqueKeys(pairs)
    ensures UniqueKeys(WithoutProtoKey(pairs))
  {
    if |pairs| > 0 {
      var n := |pairs| - 1;
      var rest := WithoutProtoKey(pairs[..n]);
      var last := if pairs[n].0 == "__proto__" then [] else [pairs[n]];
      assert pairs == pairs[..n] + [pairs[n]];
      UniqueKeysAppend(pairs[..n], [pairs[n]]);
      WithoutProtoKeyUnique(pairs[..n]);
      WithoutProtoKeyKeys(pairs[..n]);
      assert Keys(last) <= Keys([pairs[n]]);
      UniqueKeysAppend(rest, last);
    }
  }

  lemma KeysAppend(a: seq<(string, Json)>, b: seq<(string, Json)>)
    ensures Keys(a + b) == Keys(a) + Keys(b)
  {
    var s := a + b;
    forall k | k in Keys(s) ensures k in Keys(a) + Keys(b) {
      var i :| 0 <= i < |s| && s[i].0 == k;
      if i < |a| { assert a[i] == s[i]; } else { assert b[i - |a|] == s[i]; }
    }
    forall k | k in Keys(a) ensures k in Keys(s) {
      var i :| 0 <= i < |a| && a[i].0 == k;
      assert s[i] == a[i];
    }
    forall k | k in Keys(b) ensures k in Keys(s) {
      var i :| 0 <= i < |b| && b[i].0 == k;
      assert s[|a| + i] == b[i];
    }
  }

  lemma UniqueKeysAppend(a: seq<(string, Json)>, b: seq<(string, Json)>)
    ensures UniqueKeys(a + b) <==> UniqueKeys(a) && UniqueKeys(b) && Keys(a) !! Keys(b)
  {
    var s := a + b;
    if UniqueKeys(a) && UniqueKeys(b) && Keys(a) !! Keys(b) {
      forall i, j | 0 <= i < j < |s| ensures s[i].0 != s[j].0 {
        if j < |a| { assert s[i] == a[i] && s[j] == a[j]; }
        else if |a| <= i { assert s[i] == b[i - |a|] && s[j] == b[j - |a|]; }
        else {
          assert s[i] == a[i] && s[j] == b[j - |a|];
          assert a[i].0 in Keys(a) && b[j - |a|].0 in Keys(b);
        }
      }
    }
    if UniqueKeys(s) {
      forall i, j | 0 <= i < j < |a| ensures a[i].0 != a[j].0 {
        assert s[i] == a[i] && s[j] == a[j];
      }
      forall i, j | 0 <= i < j < |b| ensures b[i].0 != b[j].0 {
        assert s[|a| + i] == b[i] && s[|a| + j] == b[j];
      }
      forall k | k in Keys(a) ensures k !in Keys(b) {
        var i :| 0 <= i < |a| && a[i].0 == k;
        forall j | 0 <= j < |b| ensures b[j].0 != k {
          assert s[i] == a[i] && s[|a| + j] == b[j];
        }
      }
    }
  }

  /**
   * On an object's own properties, whose keys are distinct, the `reduce` keeps every
   * property but `__proto__`, in order, and leaves `Object.prototype` as the
   * prototype unless `__proto__` was given an object or `null`.
   */
  lemma {:induction false} PutAllDistinctKeys(pairs: seq<(string, Json)>)
    requires UniqueKeys(pairs)
    ensures var r := PutAll(EmptyObject, pairs);
      r.entries == WithoutProtoKey(pairs)
      && (r.proto == ObjectPrototype <==> !ProtoAssigned(pairs))
  {
    if |pairs| > 0 {
      var n := |pairs| - 1;
      var prefix, k, v := pairs[..n], pairs[n].0, pairs[n].1;
      assert pairs == prefix + [(k, v)];
      UniqueKeysAppend(prefix, [(k, v)]);
      assert k in Keys([(k, v)]);
      PutAllDistinctKeys(prefix);
      var prev := PutAll(EmptyObject, prefix);
      WithoutProtoKeyKeys(prefix);
      if k == "__proto__" {
        assert !ProtoAssigned(prefix) by {
          forall i | 0 <= i < |prefix| ensures prefix[i].0 != "__proto__" {
            assert prefix[i].0 in Keys(prefix);
          }
        }
        assert ProtoAssigned(pairs) <==> ObjectOrNull(v) by {
          forall i | 0 <= i < n ensures pairs[i].0 != "__proto__" {
            assert pairs[i] == prefix[i] && prefix[i].0 in Keys(prefix);
          }
        }
      } else {
        assert ProtoAssigned(pairs) <==> ProtoAssigned(prefix) by {
          forall i | 0 <= i < n ensures pairs[i] == prefix[i] { }
          if ProtoAssigned(pairs) {
            var i :| 0 <= i < |pairs| && pairs[i].0 == "__proto__" && ObjectOrNull(pairs[i].1);
            assert i < n;
          }
        }
      }
    }
  }

  /** Every value, not only objects, keeps its kind; what is neither array nor object is kept. */
  lemma SanitizeKeepsKind(input: Json)
    ensures Sanitize(input).Arr? == input.Arr? && Sanitize(input).Obj? == input.Obj?
    ensures Sanitize(input).Str? == input.Str? && ObjectOrNull(Sanitize(input)) == ObjectOrNull(input)
    ensures !input.Arr? && !IsPlainObject(input) ==> Sanitize(input) == input
  {
  }

  /** Arrays are sanitized element by element: the result of a concatenation is the concatenation. */
  lemma SanitizeArrayConcat(a: seq<Json>, b: seq<Json>)
    ensures Sanitize(Arr(a + b)) == Arr(Sanitize(Arr(a)).items + Sanitize(Arr(b)).items)
  {
    var l, r := Sanitize(Arr(a)).items, Sanitize(Arr(b)).items;
    assert Sanitize(Arr(a + b)).items == l + r by {
      forall i | 0 <= i < |a + b| ensures Sanitize(Arr(a + b)).items[i] == (l + r)[i] {
        if i < |a| { assert (a + b)[i] == a[i]; } else { assert (a + b)[i] == b[i - |a|]; }
      }
    }
  }

  /** Arrays keep their length, and each element is sanitized on its own. */
  lemma SanitizeArray(items: seq<Json>, i: int)
    requires 0 <= i < |items|
    ensures |Sanitize(Arr(items)).items| == |items|
    ensures Sanitize(Arr(items)).items[i] == Sanitize(items[i])
    ensures Sanitize(Arr(items[i..i + 1])) == Arr([Sanitize(items[i])])
  {
    assert items[i..i + 1][0] == items[i];
  }

  /** The pairs the `reduce` assigns have the object's keys, and `__proto__` gets an object or `null` exactly when it had one. */
  lemma SanitizePairsKeys(entries: seq<(string, Json)>, parent: Json)
    requires forall i :: 0 <= i < |entries| ==> entries[i].1 < parent
    ensures var pairs := SanitizePairs(entries, parent);
      Keys(pairs) == Keys(entries) && (UniqueKeys(pairs) <==> UniqueKeys(entries))
      && (ProtoAssigned(pairs) <==> ProtoAssigned(entries))
  {
    var pairs := SanitizePairs(entries, parent);
    forall k | k in Keys(entries) ensures k in Keys(pairs) {
      var i :| 0 <= i < |entries| && entries[i].0 == k;
      assert pairs[i].0 == k;
    }
    forall i | 0 <= i < |entries| && entries[i].0 == "__proto__"
      ensures ObjectOrNull(pairs[i].1) == ObjectOrNull(entries[i].1)
    {
      ProtoKeyIsOrdinary(entries[i].0);
      SanitizeKeepsKind(entries[i].1);
    }
  }

  /**
   * A plain object with distinct keys comes out as an object with the same keys less
   * `__proto__`, distinct and in the same order, and stays plain unless its `__proto__`
   * property held an object or `null`.
   */
  lemma SanitizeObject(entries: seq<(string, Json)>)
    requires UniqueKeys(entries)
    ensures var r := Sanitize(Obj(ObjectPrototype, entries));
      r.Obj? && Keys(r.entries) == Keys(entries) - {"__proto__"} && UniqueKeys(r.entries)
      && (r.proto == ObjectPrototype <==> !ProtoAssigned(entries))
      && r.entries == WithoutProtoKey(SanitizePairs(entries, Obj(ObjectPrototype, entries)))
  {
    var input := Obj(ObjectPrototype, entries);
    var pairs := SanitizePairs(entries, input);
    SanitizePairsKeys(entries, input);
    PutAllDistinctKeys(pairs);
    WithoutProtoKeyKeys(pairs);
    WithoutProtoKeyUnique(pairs);
    assert Sanitize(input) == PutAll(EmptyObject, pairs);
  }

  /**
   * An object without a `__proto__` property keeps its keys in order and stays plain;
   * each value becomes what the `reduce` assigns for it.
   */
  lemma SanitizeOrdinaryObject(entries: seq<(string, Json)>)
    requires UniqueKeys(entries) && "__proto__" !in Keys(entries)
    ensures var input := Obj(ObjectPrototype, entries);
      Sanitize(input) == Obj(ObjectPrototype, SanitizePairs(entries, input))
  {
    var input := Obj(ObjectPrototype, entries);
    SanitizeObject(entries);
    assert !ProtoAssigned(entries) by {
      forall i | 0 <= i < |entries| ensures entries[i].0 != "__proto__" {
        assert entries[i].0 in Keys(entries);
      }
    }
    SanitizePairsKeys(entries, input);
    WithoutProtoKeyNoop(SanitizePairs(entries, input));
  }

  /** A key lacking some letter of a word does not contain it. */
  lemma {:induction false} MissingCharRulesOut(s: string, sub: string, c: char)
    requires c in sub && c !in s
    ensures !Contains(s, sub)
  {
    if |s| > 0 {
      MissingCharRulesOut(s[1..], sub, c);
    }
  }

  /** A key with none of the letters k, s, x, c, e, d names neither a secret nor content. */
  lemma NoSensitiveLetters(key: string)
    requires var l := Lower(key); 'k' !in l && 's' !in l && 'x' !in l
    requires var l := Lower(key); 'c' !in l && 'e' !in l && 'd' !in l
    ensures !SecretKey(key) && !ContentKey(key)
  {
    var l := Lower(key);
    MissingCharRulesOut(l, "token", 'k');
    MissingCharRulesOut(l, "secret", 's');
    MissingCharRulesOut(l, "text", 'x');
    MissingCharRulesOut(l, "content", 'c');
    MissingCharRulesOut(l, "reminder", 'e');
    MissingCharRulesOut(l, "subject", 's');
    MissingCharRulesOut(l, "description", 'd');
  }

  /** `__proto__` names neither a secret nor content. */
  lemma ProtoKeyIsOrdinary(key: string)
    requires key == "__proto__"
    ensures !SecretKey(key) && !ContentKey(key)
  {
    assert Lower(key) == key;
    NoSensitiveLetters(key);
  }

  /** With distinct keys, a property found anywhere is what `Lookup` finds. */
  lemma LookupDistinct(entries: seq<(string, Json)>, i: int)
    requires UniqueKeys(entries) && 0 <= i < |entries|
    ensures Lookup(entries, entries[i].0) == Some(entries[i].1)
  {
    if i > 0 {
      assert entries[1..][i - 1] == entries[i];
      assert UniqueKeys(entries[1..]);
      LookupDistinct(entries[1..], i - 1);
    }
  }

  /**
   * Each property of a plain object other than `__proto__` comes out under its own key:
   * the placeholder if the key names a token or secret, the placeholder if the value is
   * a string and the key names content, otherwise the sanitized value. A key that was
   * not there is still not there.
   */
  lemma SanitizedProperty(entries: seq<(string, Json)>, key: string)
    requires UniqueKeys(entries) && key != "__proto__"
    ensures var out := Sanitize(Obj(ObjectPrototype, entries)).entries;
      match Lookup(entries, key)
      case None => Lookup(out, key) == None
      case Some(value) =>
        Lookup(out, key) == Some(
          if SecretKey(key) then Str(RedactedText)
          else if value.Str? && ContentKey(key) then Str(RedactedText)
          else Sanitize(value))
  {
    var input := Obj(ObjectPrototype, entries);
    var pairs := SanitizePairs(entries, input);
    SanitizeObject(entries);
    var out := Sanitize(input).entries;
    if key in Keys(entries) {
      var i :| 0 <= i < |entries| && entries[i].0 == key;
      LookupDistinct(entries, i);
      assert pairs[i] in pairs;
      assert pairs[i] in out;
      var j :| 0 <= j < |out| && out[j] == pairs[i];
      LookupDistinct(out, j);
    }
  }

  /** Every object inside the value is plain, as in anything parsed from JSON. */
  predicate AllPlain(value: Json)
  {
    match value
    case Arr(items) => forall i :: 0 <= i < |items| ==> AllPlain(items[i])
    case Obj(proto, entries) =>
      proto == ObjectPrototype && forall i :: 0 <= i < |entries| ==> AllPlain(entries[i].1)
    case _ => true
  }

  /** Every object inside the value has distinct keys, as the own properties of an object do. */
  predicate WellFormed(value: Json)
  {
    match value
    case Arr(items) => forall i :: 0 <= i < |items| ==> WellFormed(items[i])
    case Obj(_, entries) =>
      UniqueKeys(entries) && forall i :: 0 <= i < |entries| ==> WellFormed(entries[i].1)
    case _ => true
  }

  /**
   * Nothing sensitive shows: in every object inside the value, a token or secret key
   * holds only the placeholder, and so does a content key holding a string.
   */
  predicate Redacted(value: Json)
    decreases value, 0
  {
    match value
    case Arr(items) => forall i :: 0 <= i < |items| ==> Redacted(items[i])
    case Obj(_, entries) =>
      forall i :: 0 <= i < |entries| ==> RedactedEntry(entries[i].0, entries[i].1)
    case _ => true
  }

  predicate RedactedEntry(key: string, value: Json)
    decreases value, 1
  {
    (SecretKey(key) ==> value == Str(RedactedText))
    && (ContentKey(key) && value.Str? ==> value == Str(RedactedText))
    && Redacted(value)
  }

  /** The assignments of redacted properties leave an object's properties redacted. */
  lemma {:induction false} PutAllRedacted(acc: Json, pairs: seq<(string, Json)>)
    requires acc.Obj?
    requires forall p :: p in acc.entries ==> RedactedEntry(p.0, p.1)
    requires forall p :: p in pairs ==> RedactedEntry(p.0, p.1)
    ensures forall p :: p in PutAll(acc, pairs).entries ==> RedactedEntry(p.0, p.1)
  {
    if |pairs| > 0 {
      var n := |pairs| - 1;
      assert forall p :: p in pairs[..n] ==> p in pairs;
      PutAllRedacted(acc, pairs[..n]);
      assert pairs[n] in pairs;
    }
  }

  /** Sanitizing a value whose objects are all plain leaves nothing sensitive showing. */
  lemma SanitizeRedacts(input: Json)
    requires AllPlain(input)
    ensures Redacted(Sanitize(input))
    decreases input, 0
  {
    match input
    case Arr(items) =>
      forall i | 0 <= i < |items| ensures Redacted(Sanitize(items[i])) {
        SanitizeRedacts(items[i]);
      }
    case Obj(_, entries) =>
      var pairs := SanitizePairs(entries, input);
      forall p | p in pairs ensures RedactedEntry(p.0, p.1) {
        var i :| 0 <= i < |pairs| && pairs[i] == p;
        EntryValueRedacts(entries[i].0, entries[i].1);
      }
      PutAllRedacted(EmptyObject, pairs);
      var out := Sanitize(input).entries;
      forall i | 0 <= i < |out| ensures RedactedEntry(out[i].0, out[i].1) {
        assert out[i] in out;
      }
    case _ =>
  }

  lemma EntryValueRedacts(key: string, value: Json)
    requires AllPlain(value)
    ensures RedactedEntry(key, EntryValue(key, value))
    decreases value, 1
  {
    if !SecretKey(key) && !(value.Str? && ContentKey(key)) {
      SanitizeKeepsKind(value);
      SanitizeRedacts(value);
    }
  }

  /** Sanitizing twice is sanitizing once. */
  lemma SanitizeIdempotent(input: Json)
    requires WellFormed(input)
    ensures Sanitize(Sanitize(input)) == Sanitize(input)
    decreases input, 1
  {
    match input
    case Arr(items) =>
      var once := Sanitize(input).items;
      forall i | 0 <= i < |items| ensures Sanitize(once[i]) == once[i] {
        SanitizeIdempotent(items[i]);
      }
      assert Sanitize(Sanitize(input)).items == once;
    case Obj(proto, entries) =>
      if proto == ObjectPrototype {
        PlainObjectIdempotent(entries, input);
      }
    case _ =>
  }

  lemma PlainObjectIdempotent(entries: seq<(string, Json)>, input: Json)
    requires input == Obj(ObjectPrototype, entries) && WellFormed(input)
    ensures Sanitize(Sanitize(input)) == Sanitize(input)
    decreases input, 0
  {
    var pairs := SanitizePairs(entries, input);
    SanitizeObject(entries);
    var r := Sanitize(input);
    if r.proto == ObjectPrototype {
      forall j | 0 <= j < |entries|
        ensures EntryValue(entries[j].0, EntryValue(entries[j].0, entries[j].1))
          == EntryValue(entries[j].0, entries[j].1)
      {
        EntryValueIdempotent(entries[j].0, entries[j].1);
      }
      ReassignedPairs(entries, input, r.entries, r);
      PutAllDistinctKeys(r.entries);
      WithoutProtoKeyNoop(r.entries);
      assert !ProtoAssigned(r.entries) by {
        forall i | 0 <= i < |r.entries| ensures r.entries[i].0 != "__proto__" {
          assert r.entries[i].0 in Keys(r.entries);
        }
      }
    }
  }

  /** Pairs taken from an assignment that is a fixed point are assigned unchanged. */
  lemma ReassignedPairs(entries: seq<(string, Json)>, parent: Json, out: seq<(string, Json)>,
                        outParent: Json)
    requires forall i :: 0 <= i < |entries| ==> entries[i].1 < parent
    requires forall i :: 0 <= i < |out| ==> out[i].1 < outParent
    requires forall p :: p in out ==> p in SanitizePairs(entries, parent)
    requires forall j :: 0 <= j < |entries| ==>
      EntryValue(entries[j].0, EntryValue(entries[j].0, entries[j].1))
        == EntryValue(entries[j].0, entries[j].1)
    ensures SanitizePairs(out, outParent) == out
  {
    var pairs := SanitizePairs(entries, parent);
    var again := SanitizePairs(out, outParent);
    forall i | 0 <= i < |out| ensures again[i] == out[i] {
      assert out[i] in pairs;
      var j :| 0 <= j < |pairs| && pairs[j] == out[i];
    }
  }

  lemma EntryValueIdempotent(key: string, value: Json)
    requires WellFormed(value)
    ensures EntryValue(key, EntryValue(key, value)) == EntryValue(key, value)
    decreases value, 2
  {
    if !SecretKey(key) && !(value.Str? && ContentKey(key)) {
      SanitizeKeepsKind(value);
      SanitizeIdempotent(value);
    }
  }

  /**
   * `sanitizeArgs` as the source runs it: `map` over an array, and for a plain object a
   * `reduce` that assigns each property of `Object.entries` into a fresh `{}`.
   */
  method SanitizeArgs(input: Json) returns (output: Json)
    ensures output == Sanitize(input)
    decreases input, 0
  {
    if input.Arr? {
      var items: seq<Json> := [];
      for i := 0 to |input.items|
        invariant |items| == i
        invariant forall k :: 0 <= k < i ==> items[k] == Sanitize(input.items[k])
      {
        var item := SanitizeArgs(input.items[i]);
        items := items + [item];
      }
      return Arr(items);
    }
    if IsPlainObject(input) {
      ghost var pairs := SanitizePairs(input.entries, input);
      var acc := EmptyObject;
      for i := 0 to |input.entries|
        invariant acc == PutAll(EmptyObject, pairs[..i])
      {
        var (key, value) := input.entries[i];
        var newValue: Json;
        if SecretKey(key) {
          newValue := Str(RedactedText);
        } else if value.Str? && ContentKey(key) {
          newValue := Str(RedactedText);
        } else {
          newValue := SanitizeArgs(value);
        }
        assert pairs[..i + 1][..i] == pairs[..i];
        acc := Put(acc, key, newValue);
      }
      assert pairs[..|input.entries|] == pairs;
      return acc;
    }
    return input;
  }
}
