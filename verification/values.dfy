/** JavaScript values as the mock record store handles them: the payload of a
    record is a tree of scalars, arrays and plain objects. This module holds the
    two recursive transforms the store applies to such trees (deep copy and the
    removal of `undefined` properties before a save) and the conversion of a
    value to the string under which an object stores it as a property key. */
module JsValues {

  datatype Option<+T> = None | Some(value: T)

  /** A JavaScript value. Numbers are integers here; `Undef` is `undefined`
      (and also an array hole, which reads as `undefined`). */
  datatype Value =
    | Null
    | Bool(b: bool)
    | Num(n: int)
    | Str(s: string)
    | Undef
    | Arr(elems: seq<Value>)
    | Obj(fields: map<string, Value>)

  /** True when no `null` occurs anywhere in `v`. */
  predicate NullFree(v: Value)
  {
    match v
    case Null => false
    case Arr(es) => forall i | 0 <= i < |es| :: NullFree(es[i])
    case Obj(fs) => forall k | k in fs :: NullFree(fs[k])
    case _ => true
  }

  // ---------------------------------------------------------------------------
  // deepClone

  /** deepClone with `null` treated as the scalar it is: arrays are copied
      element-wise, objects key-wise, scalars returned unchanged. Under value
      semantics the copy is equal to its input at every depth. */
  function DeepClone(v: Value): (r: Value)
    ensures r == v
  {
    match v
    case Arr(es) =>
      var cs := seq(|es|, i requires 0 <= i < |es| => DeepClone(es[i]));
      assert forall i | 0 <= i < |es| :: cs[i] == es[i];
      assert cs == es;
      Arr(cs)
    case Obj(fs) =>
      var cf := map k | k in fs :: DeepClone(fs[k]);
      assert forall k | k in fs :: cf[k] == fs[k];
      assert cf == fs;
      Obj(cf)
    case _ => v
  }

  /** deepClone as written: `typeof null` is 'object', so `null` takes the
      object branch, where copying the properties of `null` yields `{}`. */
  function DeepCloneAsWritten(v: Value): (r: Value)
    ensures NullFree(v) ==> r == v
  {
    match v
    case Arr(es) =>
      var cs := seq(|es|, i requires 0 <= i < |es| => DeepCloneAsWritten(es[i]));
      assert NullFree(v) ==> forall i | 0 <= i < |es| :: cs[i] == es[i];
      assert NullFree(v) ==> cs == es;
      Arr(cs)
    case Obj(fs) =>
      var cf := map k | k in fs :: DeepCloneAsWritten(fs[k]);
      assert NullFree(v) ==> forall k | k in fs :: cf[k] == fs[k];
      assert NullFree(v) ==> cf == fs;
      Obj(cf)
    case Null => Obj(map[])
    case _ => v
  }

  /** A record registered with a `null` field is handed back with `{}` there. */
  lemma DeepCloneAsWrittenTurnsNullIntoObject()
    ensures DeepCloneAsWritten(Obj(map["note" := Null])) == Obj(map["note" := Obj(map[])])
    ensures DeepClone(Obj(map["note" := Null])) == Obj(map["note" := Null])
  {
    var cf := map k | k in map["note" := Null] :: DeepCloneAsWritten(map["note" := Null][k]);
    assert cf["note"] == Obj(map[]);
    assert cf == map["note" := Obj(map[])];
  }

  // ---------------------------------------------------------------------------
  // removeUndefined

  /** True when no object, at any depth, has a property whose value is
      `undefined` (array holes are allowed: deleting an index leaves one). */
  predicate NoUndefinedProps(v: Value)
  {
    match v
    case Arr(es) => forall i | 0 <= i < |es| :: NoUndefinedProps(es[i])
    case Obj(fs) => forall k | k in fs :: fs[k] != Undef && NoUndefinedProps(fs[k])
    case _ => true
  }

  /** removeUndefined with `null` treated as a scalar: every object property
      holding `undefined` is deleted, every other property is kept and searched
      recursively; deleting an array index leaves a hole, so arrays keep their
      length and an `undefined` element stays `undefined`. */
  function RemoveUndefined(v: Value): (r: Value)
    ensures v.Obj? ==> r.Obj? && r.fields.Keys == set k | k in v.fields && v.fields[k] != Undef
    ensures v.Arr? ==> r.Arr? && |r.elems| == |v.elems|
    ensures !v.Obj? && !v.Arr? ==> r == v
  {
    match v
    case Arr(es) => Arr(seq(|es|, i requires 0 <= i < |es| => RemoveUndefined(es[i])))
    case Obj(fs) => Obj(map k | k in fs && fs[k] != Undef :: RemoveUndefined(fs[k]))
    case _ => v
  }

  /** After removeUndefined no `undefined` property is left at any depth. */
  lemma {:induction false} RemoveUndefinedStrips(v: Value)
    ensures NoUndefinedProps(RemoveUndefined(v))
  {
    match v
    case Arr(es) =>
      forall i | 0 <= i < |es| ensures NoUndefinedProps(RemoveUndefined(v).elems[i]) {
        RemoveUndefinedStrips(es[i]);
      }
    case Obj(fs) =>
      var r := RemoveUndefined(v).fields;
      forall k | k in r ensures r[k] != Undef && NoUndefinedProps(r[k]) {
        RemoveUndefinedStrips(fs[k]);
      }
    case _ =>
  }

  /** A value without `undefined` properties is left exactly as it was: every
      other key and value is untouched. */
  lemma {:induction false} RemoveUndefinedKeepsDefined(v: Value)
    requires NoUndefinedProps(v)
    ensures RemoveUndefined(v) == v
  {
    match v
    case Arr(es) =>
      var r := RemoveUndefined(v).elems;
      forall i | 0 <= i < |es| ensures r[i] == es[i] {
        RemoveUndefinedKeepsDefined(es[i]);
      }
      assert r == es;
    case Obj(fs) =>
      var r := RemoveUndefined(v).fields;
      forall k | k in fs ensures k in r && r[k] == fs[k] {
        RemoveUndefinedKeepsDefined(fs[k]);
      }
      assert r == fs;
    case _ =>
  }

  /** Stripping twice is stripping once: a second save changes nothing more. */
  lemma RemoveUndefinedIdempotent(v: Value)
    ensures RemoveUndefined(RemoveUndefined(v)) == RemoveUndefined(v)
  {
    RemoveUndefinedStrips(v);
    RemoveUndefinedKeepsDefined(RemoveUndefined(v));
  }

  /** A property that is defined survives, and its value is the stripped
      original; a property holding `undefined` is gone. */
  lemma RemoveUndefinedAt(fs: map<string, Value>, k: string)
    requires k in fs
    ensures fs[k] == Undef <==> k !in RemoveUndefined(Obj(fs)).fields
    ensures fs[k] != Undef ==> RemoveUndefined(Obj(fs)).fields[k] == RemoveUndefined(fs[k])
    ensures fs[k] != Undef && NoUndefinedProps(fs[k]) ==> RemoveUndefined(Obj(fs)).fields[k] == fs[k]
  {
    if fs[k] != Undef && NoUndefinedProps(fs[k]) {
      RemoveUndefinedKeepsDefined(fs[k]);
    }
  }

  /** removeUndefined as written: `typeof null` is 'object', so a `null`
      property is searched too, and listing the own properties of `null`
      throws a TypeError (None here). */
  function RemoveUndefinedAsWritten(v: Value): (r: Option<Value>)
    ensures NullFree(v) ==> r == Some(RemoveUndefined(v))
  {
    match v
    case Null => None
    case Arr(es) =>
      if exists i | 0 <= i < |es| :: RemoveUndefinedAsWritten(es[i]).None? then None
      else
        var cs := seq(|es|, i requires 0 <= i < |es| => RemoveUndefinedAsWritten(es[i]).value);
        assert NullFree(v) ==> forall i | 0 <= i < |es| :: cs[i] == RemoveUndefined(v).elems[i];
        assert NullFree(v) ==> cs == RemoveUndefined(v).elems;
        Some(Arr(cs))
    case Obj(fs) =>
      if exists k | k in fs && fs[k] != Undef :: RemoveUndefinedAsWritten(fs[k]).None? then None
      else
        var cf := map k | k in fs && fs[k] != Undef :: RemoveUndefinedAsWritten(fs[k]).value;
        assert NullFree(v) ==> forall k | k in cf :: cf[k] == RemoveUndefined(v).fields[k];
        assert NullFree(v) ==> cf == RemoveUndefined(v).fields;
        Some(Obj(cf))
    case _ => Some(v)
  }

  /** Saving a record with a `null` field throws as written, where the
      corrected search keeps the field. */
  lemma RemoveUndefinedAsWrittenThrowsOnNull()
    ensures RemoveUndefinedAsWritten(Obj(map["note" := Null])).None?
    ensures RemoveUndefined(Obj(map["note" := Null])) == Obj(map["note" := Null])
  {
    var fs := map["note" := Null];
    assert RemoveUndefinedAsWritten(fs["note"]).None?;
    RemoveUndefinedKeepsDefined(Obj(fs));
  }

  /** As written, deepClone changes a value exactly when it holds a `null`. */
  lemma {:induction false} DeepCloneAsWrittenChangesNull(v: Value)
    ensures DeepCloneAsWritten(v) == v <==> NullFree(v)
  {
    match v
    case Arr(es) =>
      if !NullFree(v) {
        var i :| 0 <= i < |es| && !NullFree(es[i]);
        DeepCloneAsWrittenChangesNull(es[i]);
        assert DeepCloneAsWritten(v).elems[i] != es[i];
      }
    case Obj(fs) =>
      if !NullFree(v) {
        var k :| k in fs && !NullFree(fs[k]);
        DeepCloneAsWrittenChangesNull(fs[k]);
        assert DeepCloneAsWritten(v).fields[k] != fs[k];
      }
    case _ =>
  }

  /** As written, the search for `undefined` throws exactly when the value
      holds a `null`. */
  lemma {:induction false} RemoveUndefinedAsWrittenThrowsExactlyOnNull(v: Value)
    ensures RemoveUndefinedAsWritten(v).None? <==> !NullFree(v)
  {
    match v
    case Arr(es) =>
      forall i | 0 <= i < |es|
        ensures RemoveUndefinedAsWritten(es[i]).None? <==> !NullFree(es[i])
      {
        RemoveUndefinedAsWrittenThrowsExactlyOnNull(es[i]);
      }
    case Obj(fs) =>
      forall k | k in fs
        ensures RemoveUndefinedAsWritten(fs[k]).None? <==> !NullFree(fs[k])
      {
        RemoveUndefinedAsWrittenThrowsExactlyOnNull(fs[k]);
      }
    case _ =>
  }

  // ---------------------------------------------------------------------------
  // Property keys

  function DigitChar(d: nat): char
    requires d < 10
  {
    "0123456789"[d]
  }

  /** The decimal representation of `n`, as a template literal prints it. */
  function Decimal(n: nat): (s: string)
    ensures |s| >= 1 && (n >= 10 <==> |s| >= 2)
    ensures s[|s| - 1] == DigitChar(n % 10)
  {
    if n < 10 then [DigitChar(n)] else Decimal(n / 10) + [DigitChar(n % 10)]
  }

  /** Distinct numbers print differently. */
  lemma {:induction false} DecimalInjective(i: nat, j: nat)
    requires Decimal(i) == Decimal(j)
    ensures i == j
  {
    var s := Decimal(i);
    assert DigitChar(i % 10) == DigitChar(j % 10);
    if i >= 10 {
      assert j >= 10;
      assert Decimal(i / 10) == s[..|s| - 1] == Decimal(j / 10);
      DecimalInjective(i / 10, j / 10);
    }
  }

  /** The printed form of an integer, sign included. */
  function Signed(n: int): string
  {
    if n < 0 then "-" + Decimal(-n) else Decimal(n)
  }

  function Join(parts: seq<string>): string
  {
    if |parts| == 0 then ""
    else if |parts| == 1 then parts[0]
    else Join(parts[..|parts| - 1]) + "," + parts[|parts| - 1]
  }

  /** The string JavaScript uses when `v` indexes an object (String(v)). */
  function KeyOf(v: Value): (key: string)
    ensures v.Str? ==> key == v.s
    ensures v == Undef ==> key == "undefined"
    ensures v.Num? && v.n >= 0 ==> key == Decimal(v.n)
  {
    match v
    case Null => "null"
    case Bool(b) => if b then "true" else "false"
    case Num(n) => Signed(n)
    case Str(s) => s
    case Undef => "undefined"
    case Arr(es) =>
      Join(seq(|es|, i requires 0 <= i < |es| =>
        if es[i] == Null || es[i] == Undef then "" else KeyOf(es[i])))
    case Obj(_) => "[object Object]"
  }

  /** A printed number starts with a digit, never with a sign. */
  lemma {:induction false} DecimalLeadingDigit(n: nat)
    ensures Decimal(n)[0] != '-'
  {
    if n >= 10 {
      DecimalLeadingDigit(n / 10);
      assert Decimal(n)[0] == Decimal(n / 10)[0];
    }
  }

  /** Two numeric ids name the same property exactly when they are equal, and
      a non-negative number names the same property as its decimal string. */
  lemma KeyOfNumInjective(m: int, n: int)
    ensures KeyOf(Num(m)) == KeyOf(Num(n)) <==> m == n
    ensures m >= 0 ==> KeyOf(Num(m)) == KeyOf(Str(Decimal(m)))
  {
    if KeyOf(Num(m)) == KeyOf(Num(n)) {
      SignedDecimalInjective(m, n);
    }
  }

  /** A printed integer starts with a sign exactly when it is negative, and
      the digits after the sign are those of its magnitude. */
  lemma SignedSign(n: int)
    ensures |Signed(n)| >= 1
    ensures Signed(n)[0] == '-' <==> n < 0
    ensures n < 0 ==> Signed(n)[1..] == Decimal(-n)
  {
    if n < 0 {
      assert Signed(n) == "-" + Decimal(-n);
    } else {
      DecimalLeadingDigit(n);
    }
  }

  /** Distinct integers, negative ones included, print differently. */
  lemma SignedDecimalInjective(m: int, n: int)
    requires Signed(m) == Signed(n)
    ensures m == n
  {
    SignedSign(m);
    SignedSign(n);
    if m < 0 {
      DecimalInjective(-m, -n);
    } else {
      DecimalInjective(m, n);
    }
  }

  /** Removing `undefined` from an array keeps every element in place: element
      `i` becomes element `i` stripped, an `undefined` element stays
      `undefined`, and an element without `undefined` properties is kept as
      it was. */
  lemma RemoveUndefinedElem(es: seq<Value>, i: nat)
    requires i < |es|
    ensures RemoveUndefined(Arr(es)).elems[i] == RemoveUndefined(es[i])
    ensures es[i] == Undef ==> RemoveUndefined(Arr(es)).elems[i] == Undef
    ensures NoUndefinedProps(es[i]) ==> RemoveUndefined(Arr(es)).elems[i] == es[i]
  {
    if NoUndefinedProps(es[i]) {
      RemoveUndefinedKeepsDefined(es[i]);
    }
  }

  /** Stripping `undefined` properties never changes the key a value gives. */
  lemma {:induction false} KeyOfRemoveUndefined(v: Value)
    ensures KeyOf(RemoveUndefined(v)) == KeyOf(v)
  {
    match v
    case Arr(es) =>
      var rs := RemoveUndefined(v).elems;
      var p := seq(|es|, i requires 0 <= i < |es| =>
        if es[i] == Null || es[i] == Undef then "" else KeyOf(es[i]));
      var q := seq(|rs|, i requires 0 <= i < |rs| =>
        if rs[i] == Null || rs[i] == Undef then "" else KeyOf(rs[i]));
      forall i | 0 <= i < |es| ensures q[i] == p[i] {
        assert rs[i] == RemoveUndefined(es[i]);
        KeyOfRemoveUndefined(es[i]);
      }
      assert q == p;
    case _ =>
  }
}
