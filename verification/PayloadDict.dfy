/**
 Rendering a transaction object as the dictionary that is submitted as JSON.

 An object is what `__dict__` shows of it: its class and its attributes in order. The renderer walks
 the attributes, drops the hidden ones, renames one, and recurses into the objects it knows.
 */
module PayloadDict {
  import opened Wrappers
  import opened Bcs
  import TypeTags
  import Payload

  datatype PyClass = RawTransaction | EntryFunction | Multisig | Script | ModuleId | OtherClass

  datatype PyObject = PyObject(cls: PyClass, attrs: seq<Attr>)

  datatype Attr = Attr(name: string, value: PyValue)

  datatype PyValue =
    // values without attributes of their own
    | PyNone
    | PyInt(n: int)
    | PyStr(s: Text)
    | PyBytes(b: Bytes)
    | ByteStrings(items: seq<Bytes>)
    | TypeTagList(tags: seq<TypeTags.TypeTag>)
    | ScriptArguments(scriptArgs: seq<Payload.ScriptArgument>)
    // objects
    | AccountAddress(address: Address)
    | TransactionPayload(content: PyObject)
    | MultiSigTransactionPayload(entry: PyObject)
    | Instance(obj: PyObject)
  {
    /** A value that the renderer stores as it is, because it has no `__dict__`. */
    predicate IsPlain() {
      !AccountAddress? && !TransactionPayload? && !MultiSigTransactionPayload? && !Instance?
    }
  }

  datatype Json =
    | Plain(value: PyValue)
    | ByteLists(items: seq<Bytes>)
    | CharLists(s: Text)
    | Dict(entries: map<string, Json>)

  type AddressPrinter = Address -> Text

  const ARGS: string := "args"
  const PREHASH: string := "prehash"
  const EXPIRATION: string := "expiration_timestamps_secs"
  const RENAMED_EXPIRATION: string := "expiration_timestamp_secs"

  predicate Hidden(name: string) {
    (name != "" && name[0] == '_') || name == PREHASH
  }

  /** The key an attribute is stored under. */
  function KeyOf(a: Attr): string {
    if a.name == EXPIRATION && (a.value.IsPlain() || a.value.Instance?) then RENAMED_EXPIRATION else a.name
  }

  /** `[list(item) for item in v]`, which raises on items that are not iterable. */
  function ListItems(v: PyValue): Option<Json> {
    match v
    case ByteStrings(items) => Some(ByteLists(items))
    case PyStr(s) => Some(CharLists(s))
    case PyBytes(b) => if b == [] then Some(ByteLists([])) else None
    case TypeTagList(tags) => if tags == [] then Some(ByteLists([])) else None
    case ScriptArguments(scriptArgs) => if scriptArgs == [] then Some(ByteLists([])) else None
    case _ => None
  }

  function VariantName(cls: PyClass): Option<string> {
    match cls
    case EntryFunction => Some("EntryFunction")
    case Multisig => Some("Multisig")
    case Script => Some("Script")
    case _ => None
  }

  // ---------------------------------------------------------------- the rendering, as a function

  function Render(str: AddressPrinter, o: PyObject): Option<map<string, Json>>
    decreases o
  {
    RenderAttrs(str, o.attrs)
  }

  function RenderAttrs(str: AddressPrinter, attrs: seq<Attr>): Option<map<string, Json>>
    decreases attrs
  {
    if attrs == [] then Some(map[])
    else
      var n := |attrs| - 1;
      var d :- RenderAttrs(str, attrs[..n]);
      if Hidden(attrs[n].name) then Some(d)
      else
        var j :- RenderValue(str, attrs[n].name, attrs[n].value);
        Some(d[KeyOf(attrs[n]) := j])
  }

  function RenderValue(str: AddressPrinter, name: string, v: PyValue): Option<Json>
    decreases v
  {
    match v
    case TransactionPayload(content) =>
      var variant :- VariantName(content.cls);
      var d :- Render(str, content);
      Some(Dict(map[variant := Dict(d)]))
    case MultiSigTransactionPayload(entry) =>
      var d :- Render(str, entry);
      Some(Dict(map["EntryFunction" := Dict(d)]))
    case AccountAddress(address) => Some(Plain(PyStr(str(address))))
    case Instance(obj) =>
      if name == ARGS then None
      else if name == EXPIRATION then Some(Plain(v))
      else
        var d :- Render(str, obj);
        Some(Dict(d))
    case _ => if name == ARGS then ListItems(v) else Some(Plain(v))
  }

  // ---------------------------------------------------------------- the rendering, as it is done

  method PayloadToDict(str: AddressPrinter, o: PyObject) returns (r: Option<map<string, Json>>)
    ensures r == Render(str, o)
    decreases o
  {
    hide RenderAttrs, Hidden;
    var result: map<string, Json> := map[];
    NoAttrs(str, o.attrs);
    for i := 0 to |o.attrs|
      invariant RenderAttrs(str, o.attrs[..i]) == Some(result)
    {
      var (k, v) := (o.attrs[i].name, o.attrs[i].value);
      AttrsStep(str, o.attrs, i);
      RaisingPrefix(str, o.attrs, i + 1);
      if Hidden(k) {
      } else if v.TransactionPayload? {
        if v.content.cls == EntryFunction {
          var d :- PayloadToDict(str, v.content);
          result := result[k := Dict(map["EntryFunction" := Dict(d)])];
        } else if v.content.cls == Multisig {
          var d :- PayloadToDict(str, v.content);
          result := result[k := Dict(map["Multisig" := Dict(d)])];
        } else if v.content.cls == Script {
          var d :- PayloadToDict(str, v.content);
          result := result[k := Dict(map["Script" := Dict(d)])];
        } else {
          return None;
        }
      } else if v.MultiSigTransactionPayload? {
        var d :- PayloadToDict(str, v.entry);
        result := result[k := Dict(map["EntryFunction" := Dict(d)])];
      } else if v.AccountAddress? {
        result := result[k := Plain(PyStr(str(v.address)))];
      } else if k == ARGS {
        var items :- ListItems(v);
        result := result[k := items];
      } else if k == EXPIRATION {
        result := result[RENAMED_EXPIRATION := Plain(v)];
      } else if v.Instance? {
        var d :- PayloadToDict(str, v.obj);
        result := result[k := Dict(d)];
      } else {
        result := result[k := Plain(v)];
      }
    }
    assert o.attrs[..|o.attrs|] == o.attrs;
    return Some(result);
  }

  lemma NoAttrs(str: AddressPrinter, attrs: seq<Attr>)
    ensures RenderAttrs(str, attrs[..0]) == Some(map[])
  {
  }

  lemma AttrsStep(str: AddressPrinter, attrs: seq<Attr>, i: nat)
    requires i < |attrs| && RenderAttrs(str, attrs[..i]).Some?
    ensures RenderAttrs(str, attrs[..i + 1])
            == if Hidden(attrs[i].name) then RenderAttrs(str, attrs[..i])
               else match RenderValue(str, attrs[i].name, attrs[i].value)
                 case None => None
                 case Some(j) => Some(RenderAttrs(str, attrs[..i]).value[KeyOf(attrs[i]) := j])
  {
    assert attrs[..i + 1][..i] == attrs[..i];
  }

  /** Once rendering a prefix of the attributes raises, rendering them all does. */
  lemma {:induction false} RaisingPrefix(str: AddressPrinter, attrs: seq<Attr>, n: nat)
    requires n <= |attrs|
    ensures RenderAttrs(str, attrs[..n]).None? ==> RenderAttrs(str, attrs).None?
    decreases |attrs| - n
  {
    if n == |attrs| {
      assert attrs[..n] == attrs;
    } else {
      assert attrs[..n + 1][..n] == attrs[..n];
      RaisingPrefix(str, attrs, n + 1);
    }
  }
}
