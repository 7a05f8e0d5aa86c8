/** What the rendered dictionary keeps of an object, and what it drops. */
module PayloadDictLaws {
  import opened Wrappers
  import opened Bcs
  import opened PayloadDict

  predicate Visible(a: Attr) {
    !Hidden(a.name)
  }

  /** No two visible attributes are stored under the same key. */
  predicate KeysDistinct(attrs: seq<Attr>) {
    forall i, j | 0 <= i < j < |attrs| && Visible(attrs[i]) && Visible(attrs[j]) :: KeyOf(attrs[i]) != KeyOf(attrs[j])
  }

  /**
   The only way two differently named attributes share a key: one is the expiration, stored under its
   singular name, and the other already has that name.
   */
  lemma KeysCollide(a: Attr, b: Attr)
    requires a.name != b.name
    ensures KeyOf(a) == KeyOf(b)
            <==> (a.name == EXPIRATION && KeyOf(a) != EXPIRATION && b.name == RENAMED_EXPIRATION)
                 || (b.name == EXPIRATION && KeyOf(b) != EXPIRATION && a.name == RENAMED_EXPIRATION)
  {
    assert |EXPIRATION| == |RENAMED_EXPIRATION| + 1;
  }

  /** Rendering raises exactly when some visible attribute cannot be rendered. */
  lemma {:induction false} RendersIff(str: AddressPrinter, attrs: seq<Attr>)
    ensures RenderAttrs(str, attrs).Some?
            <==> forall i | 0 <= i < |attrs| && Visible(attrs[i]) :: RenderValue(str, attrs[i].name, attrs[i].value).Some?
  {
    hide RenderValue, Hidden;
    if attrs != [] {
      var n := |attrs| - 1;
      RendersIff(str, attrs[..n]);
      if forall i | 0 <= i < n && Visible(attrs[i]) :: RenderValue(str, attrs[i].name, attrs[i].value).Some? {
        assert forall i | 0 <= i < n :: attrs[..n][i] == attrs[i];
      } else {
        var i :| 0 <= i < n && Visible(attrs[i]) && RenderValue(str, attrs[i].name, attrs[i].value).None?;
        assert attrs[..n][i] == attrs[i];
      }
    }
  }

  /** The dictionary has one entry for each visible attribute, under its key, and no other. */
  ghost predicate HoldsEntries(str: AddressPrinter, attrs: seq<Attr>, d: map<string, Json>) {
    (forall i | 0 <= i < |attrs| && Visible(attrs[i]) ::
       KeyOf(attrs[i]) in d && Some(d[KeyOf(attrs[i])]) == RenderValue(str, attrs[i].name, attrs[i].value)) &&
    (forall k | k in d :: exists i :: 0 <= i < |attrs| && Visible(attrs[i]) && KeyOf(attrs[i]) == k)
  }

  lemma {:induction false} RenderedEntries(str: AddressPrinter, attrs: seq<Attr>)
    requires RenderAttrs(str, attrs).Some? && KeysDistinct(attrs)
    ensures HoldsEntries(str, attrs, RenderAttrs(str, attrs).value)
  {
    hide RenderValue, Hidden, KeyOf, RenderAttrs, HoldsEntries;
    if attrs == [] {
      NoEntries(str);
    } else {
      var n := |attrs| - 1;
      assert attrs[..n + 1] == attrs;
      RaisingPrefix(str, attrs, n);
      AttrsStep(str, attrs, n);
      assert KeysDistinct(attrs[..n]);
      RenderedEntries(str, attrs[..n]);
      if Visible(attrs[n]) {
        EntryAdded(str, attrs, RenderAttrs(str, attrs[..n]).value);
      } else {
        EntrySkipped(str, attrs, RenderAttrs(str, attrs[..n]).value);
      }
    }
  }

  lemma NoEntries(str: AddressPrinter)
    ensures RenderAttrs(str, []) == Some(map[]) && HoldsEntries(str, [], map[])
  {
  }

  lemma EntryAdded(str: AddressPrinter, attrs: seq<Attr>, d: map<string, Json>)
    requires attrs != [] && KeysDistinct(attrs) && HoldsEntries(str, attrs[..|attrs| - 1], d)
    requires var a := attrs[|attrs| - 1]; Visible(a) && RenderValue(str, a.name, a.value).Some?
    ensures var a := attrs[|attrs| - 1]; HoldsEntries(str, attrs, d[KeyOf(a) := RenderValue(str, a.name, a.value).value])
  {
    hide RenderValue, Hidden, KeyOf;
    var n := |attrs| - 1;
    var front, a := attrs[..n], attrs[n];
    var d' := d[KeyOf(a) := RenderValue(str, a.name, a.value).value];
    assert forall i | 0 <= i < n :: front[i] == attrs[i];
    forall k | k in d' ensures exists i :: 0 <= i < |attrs| && Visible(attrs[i]) && KeyOf(attrs[i]) == k {
      if KeyOf(a) != k {
        var i :| 0 <= i < n && Visible(front[i]) && KeyOf(front[i]) == k;
        assert attrs[i] == front[i];
      }
    }
  }

  lemma EntrySkipped(str: AddressPrinter, attrs: seq<Attr>, d: map<string, Json>)
    requires attrs != [] && !Visible(attrs[|attrs| - 1]) && HoldsEntries(str, attrs[..|attrs| - 1], d)
    ensures HoldsEntries(str, attrs, d)
  {
    hide RenderValue, Hidden, KeyOf;
    var n := |attrs| - 1;
    var front := attrs[..n];
    assert forall i | 0 <= i < n :: front[i] == attrs[i];
    forall k | k in d ensures exists i :: 0 <= i < |attrs| && Visible(attrs[i]) && KeyOf(attrs[i]) == k {
      var i :| 0 <= i < n && Visible(front[i]) && KeyOf(front[i]) == k;
      assert attrs[i] == front[i];
    }
  }

  /** A name is hidden when it is `prehash` or starts with an underscore, and only then. */
  lemma HiddenNames(name: string)
    ensures Hidden(name) <==> name == "prehash" || "_" <= name
  {
    if name != "" {
      assert "_" <= name <==> name[0] == '_';
    }
  }

  /** An attribute with such a name leaves no trace, wherever it stands and whatever it holds. */
  lemma {:induction false} HiddenLeavesNoTrace(str: AddressPrinter, before: seq<Attr>, a: Attr, after: seq<Attr>)
    requires a.name == "prehash" || "_" <= a.name
    ensures RenderAttrs(str, before + [a] + after) == RenderAttrs(str, before + after)
    decreases |after|
  {
    hide RenderValue, KeyOf, Hidden;
    HiddenNames(a.name);
    var attrs, kept := before + [a] + after, before + after;
    if after == [] {
      assert kept == before;
      assert attrs[..|attrs| - 1] == before;
    } else {
      var n := |after| - 1;
      HiddenLeavesNoTrace(str, before, a, after[..n]);
      assert attrs[..|attrs| - 1] == before + [a] + after[..n];
      assert kept[..|kept| - 1] == before + after[..n];
      assert attrs[|attrs| - 1] == kept[|kept| - 1] == after[n];
    }
  }

  // ---------------------------------------------------------------- nothing visible is lost

  /** Two objects laid out alike: same attributes in the same order, with values of comparable kinds. */
  ghost predicate Alike(o: PyObject, p: PyObject)
    decreases o
  {
    |o.attrs| == |p.attrs| && KeysDistinct(o.attrs) && KeysDistinct(p.attrs) &&
    forall i | 0 <= i < |o.attrs| ::
      o.attrs[i].name == p.attrs[i].name && (Visible(o.attrs[i]) ==> AlikeValues(o.attrs[i], p.attrs[i].value))
  }

  /**
   Values that can fill the same attribute. A payload of another variant may stand in the place of a
   payload, and an absent multisig payload in the place of a present one.
   */
  ghost predicate AlikeValues(a: Attr, w: PyValue)
    decreases a
  {
    match a.value
    case TransactionPayload(o) => w.TransactionPayload? && (o.cls == w.content.cls ==> Alike(o, w.content))
    case MultiSigTransactionPayload(o) =>
      a.name != EXPIRATION && (w == PyNone || (w.MultiSigTransactionPayload? && Alike(o, w.entry)))
    case AccountAddress(_) => w.AccountAddress?
    case Instance(o) => a.name != EXPIRATION && w.Instance? && Alike(o, w.obj)
    case PyNone => w == PyNone || (a.name != EXPIRATION && w.MultiSigTransactionPayload?)
    case PyInt(_) => w.PyInt?
    case PyStr(_) => w.PyStr?
    case PyBytes(_) => w.PyBytes?
    case ByteStrings(_) => w.ByteStrings?
    case TypeTagList(_) => w.TypeTagList?
    case ScriptArguments(_) => w.ScriptArguments?
  }

  /** Equal in every attribute that is not hidden, at every depth. */
  ghost predicate AgreeVisibly(o: PyObject, p: PyObject)
    requires Alike(o, p)
    decreases o
  {
    forall i | 0 <= i < |o.attrs| && Visible(o.attrs[i]) :: ValuesAgree(o.attrs[i], p.attrs[i].value)
  }

  ghost predicate ValuesAgree(a: Attr, w: PyValue)
    requires AlikeValues(a, w)
    decreases a
  {
    match a.value
    case TransactionPayload(o) => o.cls == w.content.cls && AgreeVisibly(o, w.content)
    case MultiSigTransactionPayload(o) => w.MultiSigTransactionPayload? && AgreeVisibly(o, w.entry)
    case Instance(o) => AgreeVisibly(o, w.obj)
    case _ => a.value == w
  }

  ghost predicate Injective(str: AddressPrinter) {
    forall a, b :: str(a) == str(b) ==> a == b
  }

  /**
   `payload_to_dict` loses exactly the hidden attributes: the dictionaries of two objects laid out
   alike are equal if and only if the objects agree on everything visible. In particular the three
   payload variants, and an absent and a present multisig payload, are told apart.
   */
  lemma {:induction false} RenderLosesOnlyHidden(str: AddressPrinter, o: PyObject, p: PyObject)
    requires Injective(str) && Alike(o, p) && Render(str, o).Some? && Render(str, p).Some?
    ensures Render(str, o) == Render(str, p) <==> AgreeVisibly(o, p)
    decreases o
  {
    hide Hidden, RenderValue, RenderAttrs, AlikeValues, ValuesAgree, KeysDistinct;
    var a, b := o.attrs, p.attrs;
    RenderedEntries(str, a);
    RenderedEntries(str, b);
    forall i | 0 <= i < |a| && Visible(a[i])
      ensures KeyOf(a[i]) == KeyOf(b[i])
      ensures RenderValue(str, a[i].name, a[i].value) == RenderValue(str, b[i].name, b[i].value) <==> ValuesAgree(a[i], b[i].value)
    {
      RendersIff(str, a);
      RendersIff(str, b);
      AlikeKeys(a[i], b[i]);
      ValueLosesOnlyHidden(str, a[i], b[i].value);
    }
    var d, e := Render(str, o).value, Render(str, p).value;
    assert d.Keys == e.Keys;
    if AgreeVisibly(o, p) {
      forall k | k in d ensures d[k] == e[k] {
        var i :| 0 <= i < |a| && Visible(a[i]) && KeyOf(a[i]) == k;
      }
      assert d == e;
    }
    if d == e {
      forall i | 0 <= i < |a| && Visible(a[i]) ensures ValuesAgree(a[i], b[i].value) {
        assert d[KeyOf(a[i])] == e[KeyOf(b[i])];
      }
    }
  }

  lemma AlikeKeys(a: Attr, b: Attr)
    requires a.name == b.name && AlikeValues(a, b.value)
    ensures KeyOf(a) == KeyOf(b)
  {
  }

  lemma {:induction false} ValueLosesOnlyHidden(str: AddressPrinter, a: Attr, w: PyValue)
    requires Injective(str) && AlikeValues(a, w)
    requires RenderValue(str, a.name, a.value).Some? && RenderValue(str, a.name, w).Some?
    ensures RenderValue(str, a.name, a.value) == RenderValue(str, a.name, w) <==> ValuesAgree(a, w)
    decreases a
  {
    hide Render, Alike, AgreeVisibly, Hidden;
    match a.value
    case TransactionPayload(o) =>
      VariantNamesDiffer(o.cls, w.content.cls);
      if o.cls == w.content.cls {
        RenderLosesOnlyHidden(str, o, w.content);
        WrappedDictsDiffer(VariantName(o.cls).value, Render(str, o).value, VariantName(o.cls).value, Render(str, w.content).value);
      } else {
        WrappedDictsDiffer(VariantName(o.cls).value, Render(str, o).value, VariantName(w.content.cls).value, Render(str, w.content).value);
      }
    case MultiSigTransactionPayload(o) =>
      if w.MultiSigTransactionPayload? {
        RenderLosesOnlyHidden(str, o, w.entry);
        WrappedDictsDiffer("EntryFunction", Render(str, o).value, "EntryFunction", Render(str, w.entry).value);
      }
    case Instance(o) => RenderLosesOnlyHidden(str, o, w.obj);
    case _ =>
  }

  lemma VariantNamesDiffer(c: PyClass, c': PyClass)
    requires VariantName(c).Some? && VariantName(c').Some?
    ensures VariantName(c) == VariantName(c') <==> c == c'
  {
    assert |"EntryFunction"| == 13 && |"Multisig"| == 8 && |"Script"| == 6;
  }

  lemma WrappedDictsDiffer(k: string, d: map<string, Json>, k': string, d': map<string, Json>)
    ensures Dict(map[k := Dict(d)]) == Dict(map[k' := Dict(d')]) <==> k == k' && d == d'
  {
    var m, m' := map[k := Dict(d)], map[k' := Dict(d')];
    if m == m' {
      assert k in m && k in m' && m[k] == m'[k];
    }
  }
}
