/** JSON-like JavaScript values as they arrive in request bodies and leave the document store. */
module Values {
  import opened Results

  /** A JavaScript value. Numbers are modelled as unbounded integers. */
  datatype Value =
    | Undefined
    | Null
    | Bool(b: bool)
    | Num(n: int)
    | Str(s: string)
    | Arr(elems: seq<Value>)
    | Obj(fields: map<string, Value>)

  /** A plain object: a request body item, a converted save document or a stored document. */
  type Document = map<string, Value>

  /** The document `d` cut down to the keys in `keys`, values unchanged. */
  function Restrict(d: Document, keys: set<string>): (r: Document)
    ensures r.Keys == d.Keys * keys
    ensures forall k :: k in r ==> r[k] == d[k]
  {
    map k | k in d && k in keys :: d[k]
  }

  /** `obj[key]` on a plain object: the own property, or `undefined` when there is none. */
  function Get(d: Document, key: string): (r: Value)
    ensures key !in d ==> r == Undefined
    ensures key in d ==> r == d[key]
  {
    if key in d then d[key] else Undefined
  }

  /** A decimal digit. */
  predicate IsDigit(c: char)
  {
    '0' <= c <= '9'
  }

  /** The number a string of decimal digits denotes. */
  function DigitsValue(s: string): nat
    requires forall i :: 0 <= i < |s| ==> IsDigit(s[i])
  {
    if s == [] then 0
    else
      assert IsDigit(s[|s| - 1]);
      DigitsValue(s[..|s| - 1]) * 10 + (s[|s| - 1] as int - '0' as int)
  }

  /** The array index a property key names: a canonical decimal numeral, that is digits only
      and no leading zero except in `"0"` itself. Any other key names no index. */
  function ArrayIndex(key: string): (r: Option<nat>)
    ensures r.Some? ==> |key| > 0 && (forall i :: 0 <= i < |key| ==> IsDigit(key[i]))
    ensures r.Some? ==> key[0] != '0' || key == "0"
  {
    if |key| > 0 && (forall i :: 0 <= i < |key| ==> IsDigit(key[i])) && (key[0] != '0' || |key| == 1)
    then Some(DigitsValue(key))
    else None
  }

  /** `String(n)` for a natural number: its canonical decimal numeral. */
  function DecimalString(n: nat): (s: string)
    ensures |s| > 0
    ensures forall i :: 0 <= i < |s| ==> IsDigit(s[i])
    decreases n
  {
    var last := ['0' + (n % 10) as char];
    if n < 10 then last else DecimalString(n / 10) + last
  }

  /** The numeral of `n` starts with `0` only when it is `"0"`. */
  lemma {:induction false} DecimalStringLead(n: nat)
    ensures DecimalString(n)[0] == '0' <==> n == 0
    decreases n
  {
    if n >= 10 {
      DecimalStringLead(n / 10);
      assert DecimalString(n)[0] == DecimalString(n / 10)[0];
    }
  }

  /** The numeral of `n` denotes `n`. */
  lemma {:induction false} DecimalStringValue(n: nat)
    ensures DigitsValue(DecimalString(n)) == n
    decreases n
  {
    var s := DecimalString(n);
    if n >= 10 {
      DecimalStringValue(n / 10);
      assert s[..|s| - 1] == DecimalString(n / 10);
    }
  }

  /** The key `String(n)` names exactly the index `n`: writing an index out and reading it
      back gives it again. */
  lemma ArrayIndexRoundTrip(n: nat)
    ensures ArrayIndex(DecimalString(n)) == Some(n)
  {
    DecimalStringLead(n);
    DecimalStringValue(n);
  }

  /** lodash's `_.property(key)` applied to one item of a request body: an object item's own
      property; a string's or array's `length`, or its element at an index key; `undefined`
      for everything else. */
  function Property(item: Value, key: string): (r: Value)
    ensures item.Obj? ==> r == Get(item.fields, key)
    ensures (item.Str? || item.Arr?) && key == "length" ==> r == Num(if item.Str? then |item.s| else |item.elems|)
    ensures (item.Str? || item.Arr?) && ArrayIndex(key).None? && key != "length" ==> r == Undefined
    ensures item.Str? && ArrayIndex(key).Some? ==>
              r == if ArrayIndex(key).value < |item.s| then Str([item.s[ArrayIndex(key).value]]) else Undefined
    ensures item.Arr? && ArrayIndex(key).Some? ==>
              r == if ArrayIndex(key).value < |item.elems| then item.elems[ArrayIndex(key).value] else Undefined
    ensures !(item.Obj? || item.Str? || item.Arr?) ==> r == Undefined
  {
    match item
    case Obj(fields) => Get(fields, key)
    case Str(s) =>
      if key == "length" then Num(|s|)
      else (match ArrayIndex(key)
            case Some(i) => if i < |s| then Str([s[i]]) else Undefined
            case None => Undefined)
    case Arr(xs) =>
      if key == "length" then Num(|xs|)
      else (match ArrayIndex(key)
            case Some(i) => if i < |xs| then xs[i] else Undefined
            case None => Undefined)
    case _ => Undefined
  }

  /** The element at index `n` of a string or array item is what `_.property(String(n))`
      reads from it. */
  lemma PropertyAtIndex(item: Value, n: nat)
    requires item.Str? || item.Arr?
    ensures item.Str? && n < |item.s| ==> Property(item, DecimalString(n)) == Str([item.s[n]])
    ensures item.Arr? && n < |item.elems| ==> Property(item, DecimalString(n)) == item.elems[n]
    ensures item.Str? && n >= |item.s| ==> Property(item, DecimalString(n)) == Undefined
    ensures item.Arr? && n >= |item.elems| ==> Property(item, DecimalString(n)) == Undefined
  {
    ArrayIndexRoundTrip(n);
  }
}
