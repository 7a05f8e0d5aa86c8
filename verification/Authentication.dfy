/** The authenticator part of the submitted body, and the body as a whole. */
module Authentication {
  import opened Wrappers
  import opened Bcs
  import Transactions
  import opened PayloadDict
  import opened PayloadDictLaws
  import opened Submission

  datatype AuthVariant = Ed25519 | OtherVariant

  /** An authenticator, or the attributes of any other object. */
  datatype AuthObject =
    | Authenticator(variant: AuthVariant, inner: AuthObject)
    | Attributes(attrs: seq<AuthAttr>)

  datatype AuthAttr = AuthAttr(name: string, value: AuthValue)

  /** `Printed` is a public key or a signature, by its text. */
  datatype AuthValue = Printed(text: Text) | Nested(obj: AuthObject) | Other(value: PyValue)

  /** What rendering an authenticator gives; variants other than Ed25519 are not implemented. */
  function RenderAuth(o: AuthObject): Option<map<string, Json>>
    decreases o
  {
    match o
    case Authenticator(variant, inner) =>
      if variant != Ed25519 then None
      else
        var d :- RenderAuth(inner);
        Some(map["Ed25519" := Dict(d)])
    case Attributes(attrs) => RenderAuthAttrs(attrs)
  }

  function RenderAuthAttrs(attrs: seq<AuthAttr>): Option<map<string, Json>>
    decreases attrs
  {
    if attrs == [] then Some(map[])
    else
      var n := |attrs| - 1;
      var d :- RenderAuthAttrs(attrs[..n]);
      var j :- RenderAuthValue(attrs[n].value);
      Some(d[attrs[n].name := j])
  }

  function RenderAuthValue(v: AuthValue): Option<Json>
    decreases v
  {
    match v
    case Printed(text) => Some(Plain(PyStr(text)))
    case Nested(obj) =>
      var d :- RenderAuth(obj);
      Some(Dict(d))
    case Other(value) => Some(Plain(value))
  }

  method AuthToDict(o: AuthObject) returns (r: Option<map<string, Json>>)
    ensures r == RenderAuth(o)
    decreases o
  {
    hide RenderAuthAttrs;
    var result: map<string, Json> := map[];
    if o.Authenticator? {
      if o.variant == Ed25519 {
        var d :- AuthToDict(o.inner);
        result := result["Ed25519" := Dict(d)];
      } else {
        return None;
      }
    } else {
      NoAuthAttrs(o.attrs);
      for i := 0 to |o.attrs|
        invariant RenderAuthAttrs(o.attrs[..i]) == Some(result)
      {
        var (k, v) := (o.attrs[i].name, o.attrs[i].value);
        AuthStep(o.attrs, i);
        RaisingAuthPrefix(o.attrs, i + 1);
        match v
        case Printed(text) => result := result[k := Plain(PyStr(text))];
        case Nested(obj) =>
          var d :- AuthToDict(obj);
          result := result[k := Dict(d)];
        case Other(value) => result := result[k := Plain(value)];
      }
      assert o.attrs[..|o.attrs|] == o.attrs;
    }
    return Some(result);
  }

  lemma NoAuthAttrs(attrs: seq<AuthAttr>)
    ensures RenderAuthAttrs(attrs[..0]) == Some(map[])
  {
  }

  lemma AuthStep(attrs: seq<AuthAttr>, i: nat)
    requires i < |attrs| && RenderAuthAttrs(attrs[..i]).Some?
    ensures RenderAuthAttrs(attrs[..i + 1])
            == match RenderAuthValue(attrs[i].value)
               case None => None
               case Some(j) => Some(RenderAuthAttrs(attrs[..i]).value[attrs[i].name := j])
  {
    assert attrs[..i + 1][..i] == attrs[..i];
  }

  lemma {:induction false} RaisingAuthPrefix(attrs: seq<AuthAttr>, n: nat)
    requires n <= |attrs|
    ensures RenderAuthAttrs(attrs[..n]).None? ==> RenderAuthAttrs(attrs).None?
    decreases |attrs| - n
  {
    if n == |attrs| {
      assert attrs[..n] == attrs;
    } else {
      assert attrs[..n + 1][..n] == attrs[..n];
      RaisingAuthPrefix(attrs, n + 1);
    }
  }

  // ---------------------------------------------------------------- the submitted body

  /** The Ed25519 authenticator of a public key and a signature, given as they print. */
  function Ed25519Authenticator(publicKey: Text, signature: Text): AuthObject {
    Authenticator(Ed25519,
      Attributes([AuthAttr("public_key", Printed(publicKey)), AuthAttr("signature", Printed(signature))]))
  }

  function CreateTxDict(str: AddressPrinter, t: Transactions.RawTransaction, publicKey: Text, signature: Text)
    : Option<map<string, Json>>
  {
    var rawTxn :- Render(str, TransactionObject(t));
    var authenticator :- RenderAuth(Ed25519Authenticator(publicKey, signature));
    Some(map["Move" := Dict(map["raw_txn" := Dict(rawTxn), "authenticator" := Dict(authenticator)])])
  }

  lemma Ed25519Rendered(publicKey: Text, signature: Text)
    ensures RenderAuth(Ed25519Authenticator(publicKey, signature))
            == Some(map["Ed25519" := Dict(map["public_key" := Plain(PyStr(publicKey)), "signature" := Plain(PyStr(signature))])])
  {
    var attrs := [AuthAttr("public_key", Printed(publicKey)), AuthAttr("signature", Printed(signature))];
    hide RenderAuthAttrs;
    NoAuthAttrs(attrs);
    AuthStep(attrs, 0);
    AuthStep(attrs, 1);
    assert attrs[..2] == attrs;
    assert RenderAuth(Attributes(attrs)) == RenderAuthAttrs(attrs);
  }

  lemma Ed25519Determined(publicKey: Text, signature: Text, publicKey': Text, signature': Text)
    ensures RenderAuth(Ed25519Authenticator(publicKey, signature)).Some?
    ensures RenderAuth(Ed25519Authenticator(publicKey, signature)) == RenderAuth(Ed25519Authenticator(publicKey', signature'))
            <==> publicKey == publicKey' && signature == signature'
  {
    hide RenderAuth;
    Ed25519Rendered(publicKey, signature);
    Ed25519Rendered(publicKey', signature');
    var m := map["public_key" := Plain(PyStr(publicKey)), "signature" := Plain(PyStr(signature))];
    var m' := map["public_key" := Plain(PyStr(publicKey')), "signature" := Plain(PyStr(signature'))];
    assert |"public_key"| != |"signature"|;
    assert m["public_key"] == Plain(PyStr(publicKey)) && m'["public_key"] == Plain(PyStr(publicKey'));
    assert m["signature"] == Plain(PyStr(signature)) && m'["signature"] == Plain(PyStr(signature'));
    WrappedDictsDiffer("Ed25519", m, "Ed25519", m');
  }

  /**
   A submitted body determines what was signed and by whom: two transactions that can be submitted
   have the same body only if transaction, public key and signature are the same.
   */
  lemma BodyDetermined(
      str: AddressPrinter, parse: AddressParser, t: Transactions.RawTransaction, publicKey: Text, signature: Text,
      t': Transactions.RawTransaction, publicKey': Text, signature': Text)
    requires forall a :: parse(str(a)) == Some(a)
    requires Submittable(str, TransactionObject(t)) && Submittable(str, TransactionObject(t'))
    ensures CreateTxDict(str, t, publicKey, signature).Some?
    ensures CreateTxDict(str, t, publicKey, signature) == CreateTxDict(str, t', publicKey', signature')
            <==> t == t' && publicKey == publicKey' && signature == signature'
  {
    hide Render, RenderAuth, TransactionObject, Ed25519Authenticator, Sendable, NoTypeArguments, ReadTransaction;
    TransactionSubmittable(str, t);
    TransactionSubmittable(str, t');
    DictReadsBack(str, parse, t);
    DictReadsBack(str, parse, t');
    Ed25519Determined(publicKey, signature, publicKey', signature');
    Ed25519Determined(publicKey', signature', publicKey, signature);
    BodyParts(Render(str, TransactionObject(t)).value, RenderAuth(Ed25519Authenticator(publicKey, signature)).value,
              Render(str, TransactionObject(t')).value, RenderAuth(Ed25519Authenticator(publicKey', signature')).value);
  }

  lemma BodyParts(d: map<string, Json>, a: map<string, Json>, d': map<string, Json>, a': map<string, Json>)
    ensures map["Move" := Dict(map["raw_txn" := Dict(d), "authenticator" := Dict(a)])]
            == map["Move" := Dict(map["raw_txn" := Dict(d'), "authenticator" := Dict(a')])]
            <==> d == d' && a == a'
  {
    var m, m' := map["raw_txn" := Dict(d), "authenticator" := Dict(a)], map["raw_txn" := Dict(d'), "authenticator" := Dict(a')];
    assert |"raw_txn"| != |"authenticator"|;
    assert m["raw_txn"] == Dict(d) && m["authenticator"] == Dict(a);
    assert m'["raw_txn"] == Dict(d') && m'["authenticator"] == Dict(a');
    WrappedDictsDiffer("Move", m, "Move", m');
    assert map["Move" := Dict(m)]["Move"] == Dict(m) && map["Move" := Dict(m')]["Move"] == Dict(m');
  }

  // ---------------------------------------------------------------- what lies where in the body

  /** The reader of a whole body: the transaction, and the texts of public key and signature. */
  function ReadBody(parse: AddressParser, body: map<string, Json>): Option<(Transactions.RawTransaction, Text, Text)> {
    var m :- ReadField(body, "Move");
    var move :- ReadDict(m);
    var r :- ReadField(move, "raw_txn");
    var rawTxn :- ReadDict(r);
    var t :- ReadTransaction(parse, rawTxn);
    var a :- ReadField(move, "authenticator");
    var authenticator :- ReadDict(a);
    var e :- ReadField(authenticator, "Ed25519");
    var ed25519 :- ReadDict(e);
    var p :- ReadField(ed25519, "public_key");
    var publicKey :- ReadText(p);
    var s :- ReadField(ed25519, "signature");
    var signature :- ReadText(s);
    Some((t, publicKey, signature))
  }

  /** The body, key by key: the transaction's dictionary, and the Ed25519 key and signature. */
  lemma BodyEntries(str: AddressPrinter, t: Transactions.RawTransaction, publicKey: Text, signature: Text)
    requires Render(str, TransactionObject(t)).Some?
    ensures CreateTxDict(str, t, publicKey, signature).Some?
    ensures var body := CreateTxDict(str, t, publicKey, signature).value;
            body.Keys == {"Move"} && body["Move"].Dict? &&
            var move := body["Move"].entries;
            move.Keys == {"raw_txn", "authenticator"} &&
            move["raw_txn"] == Dict(Render(str, TransactionObject(t)).value) && move["authenticator"].Dict? &&
            var authenticator := move["authenticator"].entries;
            authenticator.Keys == {"Ed25519"} && authenticator["Ed25519"].Dict? &&
            var ed25519 := authenticator["Ed25519"].entries;
            ed25519.Keys == {"public_key", "signature"} &&
            ed25519["public_key"] == Plain(PyStr(publicKey)) && ed25519["signature"] == Plain(PyStr(signature))
  {
    hide Render, RenderAuth, TransactionObject, Ed25519Authenticator;
    Ed25519Rendered(publicKey, signature);
    assert |"raw_txn"| != |"authenticator"| && |"public_key"| != |"signature"|;
  }

  /** For every transaction that can be submitted, the body says what was signed, by whom, and how. */
  lemma BodyReadsBack(
      str: AddressPrinter, parse: AddressParser, t: Transactions.RawTransaction, publicKey: Text, signature: Text)
    requires forall a :: parse(str(a)) == Some(a)
    requires Submittable(str, TransactionObject(t))
    ensures CreateTxDict(str, t, publicKey, signature).Some?
    ensures ReadBody(parse, CreateTxDict(str, t, publicKey, signature).value) == Some((t, publicKey, signature))
  {
    hide Render, TransactionObject, Sendable, NoTypeArguments, ReadTransaction, CreateTxDict;
    TransactionSubmittable(str, t);
    DictReadsBack(str, parse, t);
    BodyEntries(str, t, publicKey, signature);
  }
}
