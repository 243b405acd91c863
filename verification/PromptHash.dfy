/**
 The bytes the prompt digest is taken of. SHA-256 itself is ideal: what is shown
 is that the bytes fed to it say everything about a request and nothing else.
 */
module PromptHash {
  import opened Decimal
  import opened Delimiters
  import opened Ordering
  import opened Sequences

  /** One `map[string]any`. */
  datatype Obj = Obj(fields: map<string, Json>)

  /** A grounding value. `List` is `[]any`, `Maps` is `[]map[string]any`; anything
      else that is not a string is known by its rendered type and value. */
  datatype Json =
    | Map(obj: Obj)
    | List(items: seq<Json>)
    | Maps(objs: seq<Obj>)
    | Text(text: string)
    | Scalar(rendered: string)

  datatype Message = Message(role: string, content: string)

  datatype Request = Request(seam: string, model: string, system: string,
                             messages: seq<Message>, context: seq<Obj>)

  // ---------- the encoding ----------

  function Len(n: nat): string { Itoa(n) + "\0" }

  function Field(s: string): string { Len(|s|) + s }

  ghost function EncObj(o: Obj): string
    decreases o, 1
  {
    Len(|o.fields|) + EncFields(o, Sorted(o.fields.Keys))
  }

  ghost function EncFields(o: Obj, keys: seq<string>): string
    requires forall k :: k in keys ==> k in o.fields
    decreases o, 0, |keys|
  {
    if keys == [] then ""
    else Field(keys[0]) + EncValue(o.fields[keys[0]]) + EncFields(o, keys[1..])
  }

  ghost function EncValue(v: Json): string
    decreases v, 0
  {
    match v
    case Map(o) => "m" + EncObj(o)
    case List(items) => "s" + Len(|items|) + EncItems(items)
    case Maps(objs) => "s" + Len(|objs|) + EncObjs(objs, "m")
    case Text(s) => "t" + Field(s)
    case Scalar(r) => "v" + Field(r)
  }

  ghost function EncItems(items: seq<Json>): string
    decreases items, 0
  {
    if items == [] then "" else EncValue(items[0]) + EncItems(items[1..])
  }

  /** Objects one after the other, each behind its tag. */
  ghost function EncObjs(objs: seq<Obj>, tag: string): string
    decreases objs, 0
  {
    if objs == [] then "" else tag + EncObj(objs[0]) + EncObjs(objs[1..], tag)
  }

  function EncMessages(ms: seq<Message>): string {
    if ms == [] then "" else Field(ms[0].role) + Field(ms[0].content) + EncMessages(ms[1..])
  }

  ghost function Preimage(r: Request): string {
    Field(r.seam) + Field(r.model) + Field(r.system)
    + Len(|r.messages|) + EncMessages(r.messages)
    + Len(|r.context|) + EncObjs(r.context, "")
  }

  // ---------- the two list types are one ----------

  function CanonObj(o: Obj): Obj
    decreases o, 1
  {
    Obj(map k | k in o.fields :: Canon(o.fields[k]))
  }

  /** The same value with every list of maps written as a plain list. */
  function Canon(v: Json): Json
    decreases v, 0
  {
    match v
    case Map(o) => Map(CanonObj(o))
    case List(items) => List(CanonItems(items))
    case Maps(objs) => List(CanonMaps(objs))
    case Text(_) => v
    case Scalar(_) => v
  }

  function CanonItems(items: seq<Json>): (r: seq<Json>)
    ensures |r| == |items|
    decreases items, 0
  {
    if items == [] then [] else [Canon(items[0])] + CanonItems(items[1..])
  }

  function CanonMaps(objs: seq<Obj>): (r: seq<Json>)
    ensures |r| == |objs|
    decreases objs, 0
  {
    if objs == [] then [] else [Map(CanonObj(objs[0]))] + CanonMaps(objs[1..])
  }

  function CanonContext(objs: seq<Obj>): (r: seq<Obj>)
    ensures |r| == |objs|
  {
    if objs == [] then [] else [CanonObj(objs[0])] + CanonContext(objs[1..])
  }

  function CanonRequest(r: Request): Request { r.(context := CanonContext(r.context)) }

  lemma {:induction false} CanonObjEncodes(o: Obj)
    ensures EncObj(CanonObj(o)) == EncObj(o)
    decreases o, 1
  {
    var c := CanonObj(o);
    assert c.fields.Keys == o.fields.Keys;
    assert |c.fields| == |c.fields.Keys| == |o.fields|;
    assert forall k :: k in Sorted(o.fields.Keys) ==> k in Elements(Sorted(o.fields.Keys));
    CanonFieldsEncode(o, Sorted(o.fields.Keys));
  }

  lemma {:induction false} CanonFieldsEncode(o: Obj, keys: seq<string>)
    requires forall k :: k in keys ==> k in o.fields
    ensures EncFields(CanonObj(o), keys) == EncFields(o, keys)
    decreases o, 0, |keys|
  {
    if keys != [] {
      CanonEncodes(o.fields[keys[0]]);
      CanonFieldsEncode(o, keys[1..]);
    }
  }

  lemma {:induction false} CanonEncodes(v: Json)
    ensures EncValue(Canon(v)) == EncValue(v)
    decreases v, 0
  {
    match v
    case Map(o) => CanonObjEncodes(o);
    case List(items) => CanonItemsEncode(items);
    case Maps(objs) => CanonMapsEncode(objs);
    case Text(_) =>
    case Scalar(_) =>
  }

  lemma {:induction false} CanonItemsEncode(items: seq<Json>)
    ensures EncItems(CanonItems(items)) == EncItems(items)
    decreases items, 0
  {
    if items != [] {
      CanonEncodes(items[0]);
      CanonItemsEncode(items[1..]);
    }
  }

  lemma {:induction false} CanonMapsEncode(objs: seq<Obj>)
    ensures EncItems(CanonMaps(objs)) == EncObjs(objs, "m")
    decreases objs, 0
  {
    if objs != [] {
      CanonObjEncodes(objs[0]);
      CanonMapsEncode(objs[1..]);
    }
  }

  lemma {:induction false} CanonContextEncodes(objs: seq<Obj>)
    ensures EncObjs(CanonContext(objs), "") == EncObjs(objs, "")
  {
    if objs != [] {
      CanonObjEncodes(objs[0]);
      CanonContextEncodes(objs[1..]);
    }
  }

  // ---------- the encoding can be read back in one way only ----------

  lemma LenSplits(m: nat, n: nat, x: string, y: string)
    requires Len(m) + x == Len(n) + y
    ensures m == n && x == y
  {
    hide Itoa;
    AtoiItoa(m);
    AtoiItoa(n);
    SplitAt('\0', Itoa(m), Itoa(n), x, y);
  }

  lemma FieldSplits(s: string, t: string, x: string, y: string)
    requires Field(s) + x == Field(t) + y
    ensures s == t && x == y
  {
    hide Len;
    Regroup(Len(|s|), s, x, "");
    Regroup(Len(|t|), t, y, "");
    LenSplits(|s|, |t|, s + x, t + y);
    assert (s + x)[..|s|] == s && (t + y)[..|t|] == t;
    assert (s + x)[|s|..] == x && (t + y)[|t|..] == y;
  }

  ghost predicate PlainObj(o: Obj)
    decreases o, 1
  {
    forall k :: k in o.fields ==> Plain(o.fields[k])
  }

  /** No list of maps inside: the values `Canon` gives. */
  ghost predicate Plain(v: Json)
    decreases v, 0
  {
    match v
    case Map(o) => PlainObj(o)
    case List(items) => forall i :: 0 <= i < |items| ==> Plain(items[i])
    case Maps(_) => false
    case Text(_) => true
    case Scalar(_) => true
  }

  lemma {:induction false} ObjSplits(o: Obj, p: Obj, x: string, y: string)
    requires PlainObj(o) && PlainObj(p) && EncObj(o) + x == EncObj(p) + y
    ensures o == p && x == y
    decreases o, 1
  {
    hide Len, EncFields, PlainObj, Sorted;
    var ks, ls := Sorted(o.fields.Keys), Sorted(p.fields.Keys);
    assert |o.fields| == |ks| && |p.fields| == |ls|;
    ListsKeys(o);
    ListsKeys(p);
    Regroup(Len(|ks|), EncFields(o, ks), x, "");
    Regroup(Len(|ls|), EncFields(p, ls), y, "");
    LenSplits(|ks|, |ls|, EncFields(o, ks) + x, EncFields(p, ls) + y);
    hide EncObj;
    FieldsSplit(o, p, ks, ls, x, y);
    assert o.fields == p.fields;
  }

  lemma ListsKeys(o: Obj)
    ensures forall k :: k in Sorted(o.fields.Keys) <==> k in o.fields
  {
    var ks := Sorted(o.fields.Keys);
    hide Sorted;
    assert forall k :: k in ks <==> k in Elements(ks);
  }

  lemma {:induction false} FieldsSplit(o: Obj, p: Obj, ks: seq<string>, ls: seq<string>, x: string, y: string)
    requires PlainObj(o) && PlainObj(p) && |ks| == |ls|
    requires (forall k :: k in ks ==> k in o.fields) && (forall k :: k in ls ==> k in p.fields)
    requires EncFields(o, ks) + x == EncFields(p, ls) + y
    ensures ks == ls && x == y
    ensures forall k :: k in ks ==> o.fields[k] == p.fields[k]
    decreases o, 0, |ks|
  {
    hide Field, EncValue, Plain;
    assert "" + x == x && "" + y == y;
    if ks != [] {
      var v, w := o.fields[ks[0]], p.fields[ls[0]];
      var r, t := EncFields(o, ks[1..]) + x, EncFields(p, ls[1..]) + y;
      Regroup(Field(ks[0]), EncValue(v), EncFields(o, ks[1..]), x);
      Regroup(Field(ls[0]), EncValue(w), EncFields(p, ls[1..]), y);
      FieldSplits(ks[0], ls[0], EncValue(v) + r, EncValue(w) + t);
      ValueSplits(v, w, r, t);
      FieldsSplit(o, p, ks[1..], ls[1..], x, y);
      assert ks == [ks[0]] + ks[1..] && ls == [ls[0]] + ls[1..];
    }
  }

  function Tag(v: Json): char {
    match v
    case Map(_) => 'm'
    case List(_) => 's'
    case Maps(_) => 's'
    case Text(_) => 't'
    case Scalar(_) => 'v'
  }

  ghost function Body(v: Json): string {
    match v
    case Map(o) => EncObj(o)
    case List(items) => Len(|items|) + EncItems(items)
    case Maps(objs) => Len(|objs|) + EncObjs(objs, "m")
    case Text(s) => Field(s)
    case Scalar(r) => Field(r)
  }

  lemma Tagged(v: Json, x: string)
    ensures EncValue(v) == [Tag(v)] + Body(v)
    ensures (EncValue(v) + x)[0] == Tag(v) && (EncValue(v) + x)[1..] == Body(v) + x
  {
    hide Field, EncItems, EncObjs, EncObj, Len;
    assert EncValue(v) == [Tag(v)] + Body(v);
  }

  lemma {:induction false} ValueSplits(v: Json, w: Json, x: string, y: string)
    requires Plain(v) && Plain(w) && EncValue(v) + x == EncValue(w) + y
    ensures v == w && x == y
    decreases v, 0
  {
    hide EncValue, Field, Len, EncItems, EncObj;
    Tagged(v, x);
    Tagged(w, y);
    match v
    case Map(o) => ObjSplits(o, w.obj, x, y);
    case List(items) =>
      Regroup(Len(|items|), EncItems(items), x, "");
      Regroup(Len(|w.items|), EncItems(w.items), y, "");
      LenSplits(|items|, |w.items|, EncItems(items) + x, EncItems(w.items) + y);
      ItemsSplit(items, w.items, x, y);
    case Maps(_) =>
    case Text(s) => FieldSplits(s, w.text, x, y);
    case Scalar(r) => FieldSplits(r, w.rendered, x, y);
  }

  lemma {:induction false} ItemsSplit(vs: seq<Json>, ws: seq<Json>, x: string, y: string)
    requires |vs| == |ws| && EncItems(vs) + x == EncItems(ws) + y
    requires forall i :: 0 <= i < |vs| ==> Plain(vs[i]) && Plain(ws[i])
    ensures vs == ws && x == y
    decreases vs, 0
  {
    hide EncValue, Plain;
    assert "" + x == x && "" + y == y;
    if vs != [] {
      var r, t := EncItems(vs[1..]) + x, EncItems(ws[1..]) + y;
      Regroup(EncValue(vs[0]), EncItems(vs[1..]), x, "");
      Regroup(EncValue(ws[0]), EncItems(ws[1..]), y, "");
      ValueSplits(vs[0], ws[0], r, t);
      ItemsSplit(vs[1..], ws[1..], x, y);
      assert vs == [vs[0]] + vs[1..] && ws == [ws[0]] + ws[1..];
    }
  }

  lemma {:induction false} MessagesSplit(ms: seq<Message>, ns: seq<Message>, x: string, y: string)
    requires |ms| == |ns| && EncMessages(ms) + x == EncMessages(ns) + y
    ensures ms == ns && x == y
  {
    hide Field;
    assert "" + x == x && "" + y == y;
    if ms != [] {
      var r, t := EncMessages(ms[1..]) + x, EncMessages(ns[1..]) + y;
      Regroup(Field(ms[0].role), Field(ms[0].content), EncMessages(ms[1..]), x);
      Regroup(Field(ns[0].role), Field(ns[0].content), EncMessages(ns[1..]), y);
      FieldSplits(ms[0].role, ns[0].role, Field(ms[0].content) + r, Field(ns[0].content) + t);
      FieldSplits(ms[0].content, ns[0].content, r, t);
      MessagesSplit(ms[1..], ns[1..], x, y);
      assert ms == [ms[0]] + ms[1..] && ns == [ns[0]] + ns[1..];
    }
  }

  lemma {:induction false} ContextSplits(os: seq<Obj>, ps: seq<Obj>, x: string, y: string)
    requires |os| == |ps| && EncObjs(os, "") + x == EncObjs(ps, "") + y
    requires forall i :: 0 <= i < |os| ==> PlainObj(os[i]) && PlainObj(ps[i])
    ensures os == ps && x == y
  {
    hide EncObj, PlainObj;
    assert "" + x == x && "" + y == y;
    if os != [] {
      var r, t := EncObjs(os[1..], "") + x, EncObjs(ps[1..], "") + y;
      assert "" + EncObj(os[0]) == EncObj(os[0]) && "" + EncObj(ps[0]) == EncObj(ps[0]);
      Regroup(EncObj(os[0]), EncObjs(os[1..], ""), x, "");
      Regroup(EncObj(ps[0]), EncObjs(ps[1..], ""), y, "");
      ObjSplits(os[0], ps[0], r, t);
      ContextSplits(os[1..], ps[1..], x, y);
      assert os == [os[0]] + os[1..] && ps == [ps[0]] + ps[1..];
    }
  }

  lemma {:induction false} CanonIsPlain(v: Json)
    ensures Plain(Canon(v))
    decreases v, 0
  {
    match v
    case Map(o) => CanonObjIsPlain(o);
    case List(items) => CanonItemsArePlain(items);
    case Maps(objs) => CanonMapsArePlain(objs);
    case Text(_) =>
    case Scalar(_) =>
  }

  lemma {:induction false} CanonObjIsPlain(o: Obj)
    ensures PlainObj(CanonObj(o))
    decreases o, 1
  {
    forall k | k in o.fields
      ensures Plain(Canon(o.fields[k]))
    {
      CanonIsPlain(o.fields[k]);
    }
  }

  lemma {:induction false} CanonItemsArePlain(items: seq<Json>)
    ensures forall i :: 0 <= i < |items| ==> Plain(CanonItems(items)[i])
    decreases items, 0
  {
    if items != [] {
      CanonIsPlain(items[0]);
      CanonItemsArePlain(items[1..]);
    }
  }

  lemma {:induction false} CanonMapsArePlain(objs: seq<Obj>)
    ensures forall i :: 0 <= i < |objs| ==> Plain(CanonMaps(objs)[i])
    decreases objs, 0
  {
    if objs != [] {
      CanonObjIsPlain(objs[0]);
      CanonMapsArePlain(objs[1..]);
    }
  }

  lemma {:induction false} CanonContextIsPlain(objs: seq<Obj>)
    ensures forall i :: 0 <= i < |objs| ==> PlainObj(CanonContext(objs)[i])
  {
    hide PlainObj;
    if objs != [] {
      CanonObjIsPlain(objs[0]);
      CanonContextIsPlain(objs[1..]);
    }
  }

  /** What follows each part of the pre-image. */
  lemma PreimageParts(r: Request)
    ensures Preimage(r) ==
      Field(r.seam) + (Field(r.model) + (Field(r.system) + (Len(|r.messages|) + (EncMessages(r.messages)
      + (Len(|r.context|) + (EncObjs(CanonContext(r.context), "") + ""))))))
  {
    hide Field, Len, EncMessages, EncObjs;
    CanonContextEncodes(r.context);
  }

  /** One byte stream, one request: equal pre-images mean the same seam, model,
      system prompt, messages and grounding values, and the other way round. */
  lemma PreimageIsExact(r: Request, s: Request)
    ensures Preimage(r) == Preimage(s) <==> CanonRequest(r) == CanonRequest(s)
  {
    hide Field, Len, EncMessages, EncObjs, CanonContext, Preimage, PlainObj;
    PreimageParts(r);
    PreimageParts(s);
    if Preimage(r) == Preimage(s) {
      var cr, cs := CanonContext(r.context), CanonContext(s.context);
      var er, es := EncObjs(cr, "") + "", EncObjs(cs, "") + "";
      var mr, ms := EncMessages(r.messages) + (Len(|cr|) + er), EncMessages(s.messages) + (Len(|cs|) + es);
      FieldSplits(r.seam, s.seam,
                  Field(r.model) + (Field(r.system) + (Len(|r.messages|) + mr)),
                  Field(s.model) + (Field(s.system) + (Len(|s.messages|) + ms)));
      FieldSplits(r.model, s.model,
                  Field(r.system) + (Len(|r.messages|) + mr), Field(s.system) + (Len(|s.messages|) + ms));
      FieldSplits(r.system, s.system, Len(|r.messages|) + mr, Len(|s.messages|) + ms);
      LenSplits(|r.messages|, |s.messages|, mr, ms);
      MessagesSplit(r.messages, s.messages, Len(|cr|) + er, Len(|cs|) + es);
      LenSplits(|cr|, |cs|, er, es);
      CanonContextIsPlain(r.context);
      CanonContextIsPlain(s.context);
      ContextSplits(cr, cs, "", "");
    }
  }

  // ---------- the writer ----------

  /** The running hash: the bytes written to it so far. */
  class Hasher {
    var written: string

    constructor ()
      ensures written == ""
    {
      written := "";
    }

    method WriteString(s: string)
      modifies this
      ensures written == old(written) + s
    {
      written := written + s;
    }

    method WriteLen(n: nat)
      modifies this
      ensures written == old(written) + Len(n)
    {
      WriteString(Itoa(n));
      WriteString("\0");
    }

    method WriteField(s: string)
      modifies this
      ensures written == old(written) + Field(s)
    {
      WriteLen(|s|);
      WriteString(s);
    }

    /** What is written does not depend on the order the keys were visited in. */
    method HashMap(m: Obj)
      modifies this
      ensures written == old(written) + EncObj(m)
      decreases m, 1
    {
      hide EncFields, Len;
      WriteLen(|m.fields|);
      var keys := SortedListing(m.fields.Keys);
      HashFields(m, keys);
      Regroup(old(written), Len(|m.fields|), EncFields(m, keys), "");
    }

    method HashFields(m: Obj, keys: seq<string>)
      requires forall k :: k in keys ==> k in m.fields
      modifies this
      ensures written == old(written) + EncFields(m, keys)
      decreases m, 0
    {
      hide EncFields, Field, EncValue;
      assert keys[0..] == keys;
      for i := 0 to |keys|
        invariant written + EncFields(m, keys[i..]) == old(written) + EncFields(m, keys)
      {
        UnfoldFields(m, keys[i..]);
        assert keys[i..][1..] == keys[i + 1..];
        Regroup(written, Field(keys[i]), EncValue(m.fields[keys[i]]), EncFields(m, keys[i + 1..]));
        WriteField(keys[i]);
        HashValue(m.fields[keys[i]]);
      }
      UnfoldFields(m, keys[|keys|..]);
      assert written + "" == written;
    }

    method HashValue(v: Json)
      modifies this
      ensures written == old(written) + EncValue(v)
      decreases v, 1
    {
      hide EncObj, Len, Field, EncItems, EncObjs;
      match v
      case Map(o) =>
        Regroup(written, "m", EncObj(o), "");
        WriteString("m");
        HashMap(o);
      case List(items) =>
        Regroup(written, "s", Len(|items|), EncItems(items));
        Regroup("s", Len(|items|), EncItems(items), "");
        WriteString("s");
        WriteLen(|items|);
        HashItems(items);
      case Maps(objs) =>
        Regroup(written, "s", Len(|objs|), EncObjs(objs, "m"));
        Regroup("s", Len(|objs|), EncObjs(objs, "m"), "");
        WriteString("s");
        WriteLen(|objs|);
        HashObjs(objs, "m");
      case Text(s) =>
        Regroup(written, "t", Field(s), "");
        WriteString("t");
        WriteField(s);
      case Scalar(r) =>
        Regroup(written, "v", Field(r), "");
        WriteString("v");
        WriteField(r);
    }

    method HashItems(items: seq<Json>)
      modifies this
      ensures written == old(written) + EncItems(items)
      decreases items, 0
    {
      hide EncValue;
      assert items[0..] == items;
      for i := 0 to |items|
        invariant written + EncItems(items[i..]) == old(written) + EncItems(items)
      {
        assert items[i..][0] == items[i] && items[i..][1..] == items[i + 1..];
        Regroup(written, EncValue(items[i]), EncItems(items[i + 1..]), "");
        HashValue(items[i]);
      }
      assert written + "" == written;
    }

    method HashObjs(objs: seq<Obj>, tag: string)
      modifies this
      ensures written == old(written) + EncObjs(objs, tag)
      decreases objs, 2
    {
      hide EncObj;
      assert objs[0..] == objs;
      for i := 0 to |objs|
        invariant written + EncObjs(objs[i..], tag) == old(written) + EncObjs(objs, tag)
      {
        assert objs[i..][0] == objs[i] && objs[i..][1..] == objs[i + 1..];
        Regroup(written, tag, EncObj(objs[i]), EncObjs(objs[i + 1..], tag));
        Regroup(tag, EncObj(objs[i]), EncObjs(objs[i + 1..], tag), "");
        WriteString(tag);
        HashMap(objs[i]);
      }
      assert written + "" == written;
    }

    method HashMessages(ms: seq<Message>)
      modifies this
      ensures written == old(written) + EncMessages(ms)
    {
      hide Field;
      assert ms[0..] == ms;
      for i := 0 to |ms|
        invariant written + EncMessages(ms[i..]) == old(written) + EncMessages(ms)
      {
        assert ms[i..][0] == ms[i] && ms[i..][1..] == ms[i + 1..];
        Regroup(written, Field(ms[i].role), Field(ms[i].content), EncMessages(ms[i + 1..]));
        Regroup(Field(ms[i].role), Field(ms[i].content), EncMessages(ms[i + 1..]), "");
        WriteField(ms[i].role);
        WriteField(ms[i].content);
      }
      assert written + "" == written;
    }
  }

  lemma UnfoldFields(o: Obj, keys: seq<string>)
    requires forall k :: k in keys ==> k in o.fields
    ensures EncFields(o, keys) ==
      if keys == [] then ""
      else Field(keys[0]) + (EncValue(o.fields[keys[0]]) + EncFields(o, keys[1..]))
  {
  }

  method PromptPreimage(req: Request) returns (written: string)
    ensures written == Preimage(req)
  {
    hide Field, Len, EncObj, EncObjs, EncMessages;
    var h := new Hasher();
    h.WriteField(req.seam);
    assert "" + Field(req.seam) == Field(req.seam);
    h.WriteField(req.model);
    h.WriteField(req.system);
    h.WriteLen(|req.messages|);
    h.HashMessages(req.messages);
    h.WriteLen(|req.context|);
    h.HashObjs(req.context, "");
    written := h.written;
  }

  // ---------- the bytes themselves ----------

  /** A field is its length in decimal, a zero byte and its bytes. */
  lemma FieldBytes(s: string)
    ensures Field(s) == Itoa(|s|) + "\0" + s
  {
  }

  /** Each kind of value has its letter. */
  lemma ValueBytes(o: Obj, s: string, items: seq<Json>)
    ensures EncValue(Map(o)) == "m" + EncObj(o)
    ensures EncValue(Text(s)) == "t" + (Itoa(|s|) + "\0" + s)
    ensures EncValue(Scalar(s)) == "v" + (Itoa(|s|) + "\0" + s)
    ensures EncValue(List(items)) == "s" + (Itoa(|items|) + "\0") + EncItems(items)
  {
    hide Itoa;
  }

  lemma {:induction false} MessagesJoin(ms: seq<Message>, ns: seq<Message>)
    ensures EncMessages(ms + ns) == EncMessages(ms) + EncMessages(ns)
    ensures |ms| == 1 ==> EncMessages(ms) == Field(ms[0].role) + Field(ms[0].content)
  {
    hide Field;
    if ms == [] {
      assert ms + ns == ns;
    } else {
      MessagesJoin(ms[1..], ns);
      assert (ms + ns)[1..] == ms[1..] + ns;
    }
  }

  lemma {:induction false} ItemsJoin(vs: seq<Json>, ws: seq<Json>)
    ensures EncItems(vs + ws) == EncItems(vs) + EncItems(ws)
    ensures |vs| == 1 ==> EncItems(vs) == EncValue(vs[0])
  {
    hide EncValue;
    if vs == [] {
      assert vs + ws == ws;
    } else {
      ItemsJoin(vs[1..], ws);
      assert (vs + ws)[1..] == vs[1..] + ws;
    }
  }

  /** The fields of a map follow each other in the order of their keys. */
  lemma {:induction false} FieldsJoin(o: Obj, ks: seq<string>, ls: seq<string>)
    requires (forall k :: k in ks ==> k in o.fields) && (forall k :: k in ls ==> k in o.fields)
    ensures forall k :: k in ks + ls ==> k in o.fields
    ensures EncFields(o, ks + ls) == EncFields(o, ks) + EncFields(o, ls)
  {
    hide EncValue, Field, EncFields;
    if ks == [] {
      assert ks + ls == ls;
      UnfoldFields(o, ks);
      assert "" + EncFields(o, ls) == EncFields(o, ls);
    } else {
      FieldsJoin(o, ks[1..], ls);
      assert (ks + ls)[1..] == ks[1..] + ls && (ks + ls)[0] == ks[0];
      UnfoldFields(o, ks + ls);
      UnfoldFields(o, ks);
      Regroup(Field(ks[0]), EncValue(o.fields[ks[0]]) + EncFields(o, ks[1..]), EncFields(o, ls), "");
    }
  }

  lemma OneField(o: Obj, k: string)
    requires k in o.fields
    ensures EncFields(o, [k]) == Field(k) + EncValue(o.fields[k])
  {
    hide EncValue, Field;
    UnfoldFields(o, [k]);
    UnfoldFields(o, []);
    assert [k][1..] == [];
  }
}
