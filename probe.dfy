/** Tier 1 of body decoding: looking for the message string in the object that
    structured unarchiving returned. The unarchiver itself is not modelled; its
    result is one of a closed set of node shapes. */
module Probe {
  import opened PyStr

  /** A Python attribute value as far as the probe can tell: a `str`, or any
      other object with its truth value and what `str()` makes of it. */
  datatype Value = Str(s: string) | Obj(truthy: bool, rendered: string)

  /** The unarchived root object:
      - `StrLeaf`: a plain `str`;
      - `HasString`: an object exposing a `string` attribute (an attributed
        string), whatever else it holds;
      - `AttrBag`: an object whose `__dict__` holds `attrs`, in insertion order
        (keys are distinct, as in any dict);
      - `Other`: anything with neither. */
  datatype Node =
    | StrLeaf(s: string)
    | HasString(stringAttr: Value)
    | AttrBag(attrs: seq<(string, Value)>)
    | Other

  /** Python truthiness of a value. */
  predicate Truthy(v: Value) {
    match v
    case Str(s) => s != []
    case Obj(t, _) => t
  }

  /** `str(v)` */
  function Render(v: Value): string {
    match v
    case Str(s) => s
    case Obj(_, r) => r
  }

  /** `value.strip()` is non-empty for a `str`. */
  predicate NonBlankStr(v: Value) {
    v.Str? && Strip(v.s) != []
  }

  /** The keys probed in `__dict__`, in order. */
  const ProbeKeys: seq<string> := ["NSString", "string", "text"]

  /** `d[key]` when `key in d`: the value of the first entry with that key. */
  function Lookup(attrs: seq<(string, Value)>, key: string): (r: Option<Value>)
    ensures r.Some? ==> (key, r.value) in attrs
  {
    if attrs == [] then None
    else if attrs[0].0 == key then Some(attrs[0].1)
    else Lookup(attrs[1..], key)
  }

  /** `Lookup` finds the first entry with the key, and nothing when no entry
      has it. */
  lemma {:induction false} LookupFirst(attrs: seq<(string, Value)>, key: string)
    ensures Lookup(attrs, key).None? <==> forall j :: 0 <= j < |attrs| ==> attrs[j].0 != key
    ensures Lookup(attrs, key).Some? ==>
      exists j :: && 0 <= j < |attrs|
                  && attrs[j] == (key, Lookup(attrs, key).value)
                  && forall i :: 0 <= i < j ==> attrs[i].0 != key
  {
    if attrs != [] && attrs[0].0 != key {
      var tail := attrs[1..];
      LookupFirst(tail, key);
      var r := Lookup(tail, key);
      if r.Some? {
        var j :| 0 <= j < |tail| && tail[j] == (key, r.value)
          && forall i :: 0 <= i < j ==> tail[i].0 != key;
        assert attrs[j + 1] == tail[j];
        forall i | 0 <= i < j + 1 ensures attrs[i].0 != key {
          if i > 0 {
            assert attrs[i] == tail[i - 1];
          }
        }
      } else {
        forall j | 0 <= j < |attrs| ensures attrs[j].0 != key {
          if j > 0 {
            assert attrs[j] == tail[j - 1];
          }
        }
      }
    }
  }

  /** `key in d and d[key]` */
  predicate TruthyAt(attrs: seq<(string, Value)>, key: string) {
    Lookup(attrs, key).Some? && Truthy(Lookup(attrs, key).value)
  }

  /** The loop over the probe keys: `str()` of the value of the first key that
      is present with a truthy value; None when there is none. */
  function FirstKeyed(attrs: seq<(string, Value)>, keys: seq<string>): (r: Option<string>)
    ensures r.Some? ==>
      exists k :: k in keys && TruthyAt(attrs, k) && r.value == Render(Lookup(attrs, k).value)
  {
    if keys == [] then None
    else if TruthyAt(attrs, keys[0]) then Some(Render(Lookup(attrs, keys[0]).value))
    else FirstKeyed(attrs, keys[1..])
  }

  /** `FirstKeyed` takes the first key in order that is present and truthy. */
  lemma {:induction false} FirstKeyedFirst(attrs: seq<(string, Value)>, keys: seq<string>)
    ensures FirstKeyed(attrs, keys).None? <==> forall j :: 0 <= j < |keys| ==> !TruthyAt(attrs, keys[j])
    ensures FirstKeyed(attrs, keys).Some? ==>
      exists j :: && 0 <= j < |keys|
                  && TruthyAt(attrs, keys[j])
                  && FirstKeyed(attrs, keys).value == Render(Lookup(attrs, keys[j]).value)
                  && forall i :: 0 <= i < j ==> !TruthyAt(attrs, keys[i])
  {
    if keys != [] && !TruthyAt(attrs, keys[0]) {
      var tail := keys[1..];
      FirstKeyedFirst(attrs, tail);
      var r := FirstKeyed(attrs, tail);
      if r.Some? {
        var j :| 0 <= j < |tail| && TruthyAt(attrs, tail[j])
          && r.value == Render(Lookup(attrs, tail[j]).value)
          && forall i :: 0 <= i < j ==> !TruthyAt(attrs, tail[i]);
        assert keys[j + 1] == tail[j];
        forall i | 0 <= i < j + 1 ensures !TruthyAt(attrs, keys[i]) {
          if i > 0 {
            assert keys[i] == tail[i - 1];
          }
        }
      } else {
        forall j | 0 <= j < |keys| ensures !TruthyAt(attrs, keys[j]) {
          if j > 0 {
            assert keys[j] == tail[j - 1];
          }
        }
      }
    }
  }

  /** The loop over `__dict__.items()`: the first value that is a `str` with a
      non-blank strip, unstripped; None when there is none. */
  function FirstNonBlankStr(attrs: seq<(string, Value)>): (r: Option<string>)
    ensures r.Some? ==> Strip(r.value) != [] && exists e :: e in attrs && e.1 == Str(r.value)
  {
    if attrs == [] then None
    else if NonBlankStr(attrs[0].1) then Some(attrs[0].1.s)
    else FirstNonBlankStr(attrs[1..])
  }

  /** `FirstNonBlankStr` takes the first non-blank `str` value in order. */
  lemma {:induction false} FirstNonBlankStrFirst(attrs: seq<(string, Value)>)
    ensures FirstNonBlankStr(attrs).None? <==> forall j :: 0 <= j < |attrs| ==> !NonBlankStr(attrs[j].1)
    ensures FirstNonBlankStr(attrs).Some? ==>
      exists j :: && 0 <= j < |attrs|
                  && attrs[j].1 == Str(FirstNonBlankStr(attrs).value)
                  && forall i :: 0 <= i < j ==> !NonBlankStr(attrs[i].1)
  {
    if attrs != [] && !NonBlankStr(attrs[0].1) {
      var tail := attrs[1..];
      FirstNonBlankStrFirst(tail);
      var r := FirstNonBlankStr(tail);
      if r.Some? {
        var j :| 0 <= j < |tail| && tail[j].1 == Str(r.value)
          && forall i :: 0 <= i < j ==> !NonBlankStr(tail[i].1);
        assert attrs[j + 1] == tail[j];
        forall i | 0 <= i < j + 1 ensures !NonBlankStr(attrs[i].1) {
          if i > 0 {
            assert attrs[i] == tail[i - 1];
          }
        }
      } else {
        forall j | 0 <= j < |attrs| ensures !NonBlankStr(attrs[j].1) {
          if j > 0 {
            assert attrs[j] == tail[j - 1];
          }
        }
      }
    }
  }

  /** `hasattr(decoded, 'string')`: an attributed string, or an object whose
      `__dict__` has a `string` entry. */
  function StringAttribute(n: Node): (r: Option<Value>)
    ensures r.Some? ==> n.HasString? || n.AttrBag?
    ensures n.AttrBag? ==> (r.Some? <==> exists j :: 0 <= j < |n.attrs| && n.attrs[j].0 == "string")
  {
    if n.AttrBag? then LookupFirst(n.attrs, "string"); Lookup(n.attrs, "string")
    else
    match n
    case HasString(v) => Some(v)
    case AttrBag(attrs) => Lookup(attrs, "string")
    case _ => None
  }

  /** The text Tier 1 finds in the unarchived object (None stands for
      `message_text` left at None). */
  function ProbeText(n: Node): (r: Option<string>)
    ensures n.StrLeaf? || n.HasString? ==> r.Some?
    ensures n.Other? ==> r.None?
  {
    match StringAttribute(n)
    case Some(v) => Some(Render(v))
    case None =>
      (match n
       case AttrBag(attrs) =>
         var keyed := FirstKeyed(attrs, ProbeKeys);
         if keyed.Some? && keyed.value != [] then keyed
         else if FirstNonBlankStr(attrs).Some? then FirstNonBlankStr(attrs)
         else keyed
       case StrLeaf(s) => Some(s)
       case _ => None)
  }

  /** The priority order of Tier 1: a `string` attribute wins, even when its
      text is empty; then the first of `NSString`, `string`, `text` present
      with a truthy value whose `str()` is non-empty; then the first `str`
      value that is not blank; failing that, the keyed value even when its
      `str()` is empty, or nothing when no key matched; a plain string is
      taken as it is; anything else yields nothing. */
  lemma ProbePriority(n: Node)
    ensures StringAttribute(n).Some? ==> ProbeText(n) == Some(Render(StringAttribute(n).value))
    ensures (&& n.AttrBag? && StringAttribute(n).None?
             && FirstKeyed(n.attrs, ProbeKeys).Some? && FirstKeyed(n.attrs, ProbeKeys).value != [])
      ==> ProbeText(n) == FirstKeyed(n.attrs, ProbeKeys)
    ensures (&& n.AttrBag? && StringAttribute(n).None?
             && (FirstKeyed(n.attrs, ProbeKeys).None? || FirstKeyed(n.attrs, ProbeKeys).value == [])
             && FirstNonBlankStr(n.attrs).Some?)
      ==> ProbeText(n) == FirstNonBlankStr(n.attrs)
    ensures (&& n.AttrBag? && StringAttribute(n).None?
             && FirstKeyed(n.attrs, ProbeKeys).Some? && FirstKeyed(n.attrs, ProbeKeys).value == []
             && FirstNonBlankStr(n.attrs).None?)
      ==> ProbeText(n) == Some([])
    ensures (&& n.AttrBag? && StringAttribute(n).None?
             && FirstKeyed(n.attrs, ProbeKeys).None? && FirstNonBlankStr(n.attrs).None?)
      ==> ProbeText(n) == None
    ensures n.StrLeaf? ==> ProbeText(n) == Some(n.s)
    ensures n.Other? ==> ProbeText(n) == None
  {
  }

  /** Tier 1 yields nothing for an attribute bag only when it has no `string`
      entry, no probe key with a truthy value and no non-blank `str` value. */
  lemma ProbeNoneIff(attrs: seq<(string, Value)>)
    ensures ProbeText(AttrBag(attrs)).None? <==>
      && (forall j :: 0 <= j < |attrs| ==> attrs[j].0 != "string")
      && (forall k :: 0 <= k < |ProbeKeys| ==> !TruthyAt(attrs, ProbeKeys[k]))
      && (forall j :: 0 <= j < |attrs| ==> !NonBlankStr(attrs[j].1))
  {
    LookupFirst(attrs, "string");
    FirstKeyedFirst(attrs, ProbeKeys);
    FirstNonBlankStrFirst(attrs);
  }

  /** Tier 1 only ever returns text taken from the object: the plain string
      itself, or `str()` of one of its attribute values. */
  lemma ProbeTextFromNode(n: Node, t: string)
    requires ProbeText(n) == Some(t)
    ensures n.StrLeaf? ==> t == n.s
    ensures n.HasString? ==> t == Render(n.stringAttr)
    ensures n.AttrBag? ==> exists e :: e in n.attrs && t == Render(e.1)
    ensures !n.Other?
  {
    if n.AttrBag? {
      var attrs := n.attrs;
      var keyed := FirstKeyed(attrs, ProbeKeys);
      if StringAttribute(n).Some? {
        assert ("string", StringAttribute(n).value) in attrs;
      } else if keyed.Some? && (keyed.value != [] || FirstNonBlankStr(attrs).None?) {
        var k :| k in ProbeKeys && TruthyAt(attrs, k)
          && keyed.value == Render(Lookup(attrs, k).value);
        assert (k, Lookup(attrs, k).value) in attrs;
      } else {
        var e :| e in attrs && e.1 == Str(t);
      }
    }
  }
}
