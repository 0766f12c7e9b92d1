/**
 * HTML rendering of a variable codelist: each code becomes an expandable
 * `<details>` item showing its name, with its other attributes in a
 * definition list, and the whole codelist becomes a document with one item
 * per code in sorted order.
 */
module CodelistFormatter {
  import opened Results
  import opened Seqs
  import opened Strings
  import opened Dicts
  import opened Definitions

  // ---------------------------------------------------------------- values

  /** `f'{value}'`: how Python prints an attribute value (a list as its `repr`). */
  function Show(v: Value): string {
    match v
    case Null => "None"
    case Text(t) => t
    case TextList(items) => "[" + ShowItems(items) + "]"
  }

  function ShowItems(items: seq<string>): string
    decreases |items|
  {
    if items == [] then ""
    else if |items| == 1 then "'" + items[0] + "'"
    else "'" + items[0] + "', " + ShowItems(items[1..])
  }

  /** `getattr(code, name)`: an `AttributeError` for an attribute the code does not have. */
  function Attribute(code: Code, name: string): (r: Result<Value>)
    ensures r.Success? <==> name in code.keys
    ensures r.Success? ==> r.value == code.entries[name]
    ensures r.Failure? ==> r.error == AttributeError
  {
    if name in code.entries then Success(code.entries[name]) else Failure(AttributeError)
  }

  // ---------------------------------------------------------------- attributes

  /** `{n: getattr(code, n) for n in names}`: the named attributes, in the order of `names`. */
  function Pick(code: Code, names: seq<string>): (r: Result<Dict<Value>>)
    ensures r.Success? <==> forall n :: n in names ==> n in code.keys
    ensures r.Failure? ==> r.error == AttributeError
    ensures r.Success? ==> forall k :: k in r.value.keys <==> k in names
    ensures r.Success? ==> forall k :: k in r.value.entries ==> k in code.entries && r.value.entries[k] == code.entries[k]
    ensures r.Success? && NoDuplicates(names) ==> r.value.keys == names
    ensures r.Success? ==> r.value.keys == Distinct(names)
    decreases |names|
  {
    if names == [] then Success(Empty())
    else
      var init := names[..|names| - 1];
      var n := names[|names| - 1];
      assert names == init + [n];
      assert forall x :: x in names <==> x in init || x == n;
      var first :- Pick(code, init);
      if n !in code.entries then Failure(AttributeError)
      else
        assert NoDuplicates(names) ==> NoDuplicates(init) && n !in init;
        Success(Put(first, n, code.entries[n]))
  }

  /** The attribute is set: not `None`. */
  function IsSet(d: Dict<Value>): string -> bool {
    k => k in d.entries && d.entries[k] != Null
  }

  /** `{k: v for k, v in d.items() if v is not None}` */
  function WithoutNone(d: Dict<Value>): (r: Dict<Value>)
    ensures forall k :: k in r.entries <==> k in d.entries && d.entries[k] != Null
    ensures forall k :: k in r.entries ==> r.entries[k] == d.entries[k]
  {
    FilterNoDuplicates(d.keys, IsSet(d));
    DictRep(Filter(d.keys, IsSet(d)), map k | k in d.entries && d.entries[k] != Null :: d.entries[k])
  }

  /** Dropping the `None` attributes keeps the order of the others. */
  lemma WithoutNoneKeepsOrder(d: Dict<Value>)
    ensures IsSubsequence(WithoutNone(d).keys, d.keys)
  {
    FilterIsSubsequence(d.keys, IsSet(d));
  }

  /** Dropping the `None` attributes twice is dropping them once. */
  lemma WithoutNoneIdempotent(d: Dict<Value>)
    ensures WithoutNone(WithoutNone(d)) == WithoutNone(d)
  {
    WithoutNoneKeysOnce(d);
    WithoutNoneEntriesOnce(d);
  }

  /** Every key left after dropping the `None` attributes survives a second pass. */
  lemma WithoutNoneKeysOnce(d: Dict<Value>)
    ensures WithoutNone(WithoutNone(d)).keys == WithoutNone(d).keys
  {
    var once := WithoutNone(d);
    FilterAll(once.keys, IsSet(once));
  }

  /** A second pass finds no `None` value to drop. */
  lemma WithoutNoneEntriesOnce(d: Dict<Value>)
    ensures WithoutNone(WithoutNone(d)).entries == WithoutNone(d).entries
  {
  }

  /** A formatter of single codes, naming the attribute shown in the summary line. */
  datatype CodeFormatter = CodeFormatter(idAttrName: string)

  /** `VariableCodeHTMLFormatter()`: the summary line shows the code's name. */
  const DefaultCodeFormatter: CodeFormatter := CodeFormatter("name")

  /**
   * `VariableCodeHTMLFormatter.get_attributes(code, attr_names, include_none)`:
   * the named attributes in the order given, or all of the code's, and without
   * those that are `None` unless `include_none` is set.
   */
  function GetAttributes(code: Code, attrNames: Option<seq<string>>, includeNone: bool): (r: Result<Dict<Value>>)
    ensures r.Success? <==> attrNames.None? || forall n :: n in attrNames.value ==> n in code.keys
    ensures r.Failure? ==> r.error == AttributeError
    ensures r.Success? ==> forall k :: k in r.value.entries <==>
      k in code.entries && (attrNames.None? || k in attrNames.value) && (includeNone || code.entries[k] != Null)
    ensures r.Success? ==> forall k :: k in r.value.entries ==> r.value.entries[k] == code.entries[k]
    ensures r.Success? && includeNone && attrNames.None? ==> r.value == code
    ensures r.Success? && includeNone && attrNames.Some? && NoDuplicates(attrNames.value) ==> r.value.keys == attrNames.value
  {
    var attrs :- if attrNames.Some? then Pick(code, attrNames.value) else Success(code);
    if includeNone then Success(attrs) else Success(WithoutNone(attrs))
  }

  /** With `include_none=False` the `None` attributes are dropped and nothing else changes. */
  lemma GetAttributesDropsOnlyNone(code: Code, attrNames: Option<seq<string>>)
    ensures var all := GetAttributes(code, attrNames, true);
      var set_ := GetAttributes(code, attrNames, false);
      all.Success? == set_.Success? && (all.Success? ==> set_.value == WithoutNone(all.value))
  {
  }

  // ---------------------------------------------------------------- one code

  /** `format` shows the id attribute in any case: it is put in front of `attr_names` when missing. */
  function WithId(id: string, attrNames: Option<seq<string>>): (r: Option<seq<string>>)
    ensures attrNames.None? <==> r.None?
    ensures r.Some? ==> id in r.value && forall n :: n in r.value <==> n == id || n in attrNames.value
    ensures attrNames.Some? && id in attrNames.value ==> r == attrNames
    ensures attrNames.Some? && id !in attrNames.value ==> r.value[0] == id && r.value[1..] == attrNames.value
  {
    if attrNames.Some? && id !in attrNames.value then Some([id] + attrNames.value) else attrNames
  }

  /** The attributes listed in the details part: all but the id attribute, in order. */
  function Described(attrs: Dict<Value>, id: string): (r: seq<string>)
    ensures id !in r
    ensures forall k :: k in r <==> k in attrs.keys && k != id
    ensures IsSubsequence(r, attrs.keys)
  {
    var other := k => k != id;
    FilterIsSubsequence(attrs.keys, other);
    Filter(attrs.keys, other)
  }

  /** One `<dt>`/`<dd>` entry. */
  function Item(name: string, v: Value): string {
    "    <dt>" + name + "</dt>\n        <dd>" + Show(v) + "</dd>"
  }

  /** The entries of the details part, one per described attribute. */
  function Items(attrs: Dict<Value>, names: seq<string>): (r: seq<string>)
    requires forall k :: k in names ==> k in attrs.entries
    ensures |r| == |names|
    ensures forall i :: 0 <= i < |names| ==> r[i] == Item(names[i], attrs.entries[names[i]])
  {
    seq(|names|, i requires 0 <= i < |names| => Item(names[i], attrs.entries[names[i]]))
  }

  function Summary(id: Value): string {
    "<details><summary><b>" + Show(id) + "</b></summary>\n<dl>\n"
  }

  const Closing: string := "</dl>\n</details>\n"

  /**
   * `VariableCodeHTMLFormatter.format(code, attr_names)`: the summary line with
   * the id attribute, then one entry per other attribute that is not `None`,
   * joined by newlines, then the closing tags.
   */
  function Format(f: CodeFormatter, code: Code, attrNames: Option<seq<string>>): (r: Result<string>)
    ensures r.Success? <==> f.idAttrName in code.keys && (attrNames.None? || forall n :: n in attrNames.value ==> n in code.keys)
    ensures r.Failure? ==> r.error == AttributeError
  {
    var attrs :- GetAttributes(code, WithId(f.idAttrName, attrNames), false);
    var id :- Attribute(code, f.idAttrName);
    Success(Summary(id) + Join(Items(attrs, Described(attrs, f.idAttrName)), '\n') + Closing)
  }

  /**
   * What a formatted code holds: the summary line with the id attribute's
   * value, one entry for each set attribute among those asked for (or all of
   * them), each once and never the id attribute, and the closing tags.
   */
  lemma FormatContent(f: CodeFormatter, code: Code, attrNames: Option<seq<string>>)
    requires Format(f, code, attrNames).Success?
    ensures var attrs := GetAttributes(code, WithId(f.idAttrName, attrNames), false).value;
      var listed := Described(attrs, f.idAttrName);
      Format(f, code, attrNames).value ==
        Summary(code.entries[f.idAttrName]) + Join(Items(attrs, listed), '\n') + Closing &&
      NoDuplicates(listed) &&
      forall k :: k in listed <==>
        k != f.idAttrName && k in code.entries && code.entries[k] != Null && (attrNames.None? || k in attrNames.value)
  {
    var attrs := GetAttributes(code, WithId(f.idAttrName, attrNames), false).value;
    FilterNoDuplicates(attrs.keys, k => k != f.idAttrName);
  }

  // ---------------------------------------------------------------- a codelist

  /** A codelist formatter and the code formatter it uses. */
  datatype ListFormatter = ListFormatter(codeFormatter: CodeFormatter)

  /** `VariableCodeListHTMLFormatter(code_formatter)`: a default code formatter when none is given. */
  function NewListFormatter(codeFormatter: Option<CodeFormatter>): (r: ListFormatter)
    ensures codeFormatter.None? ==> r.codeFormatter == DefaultCodeFormatter && r.codeFormatter.idAttrName == "name"
    ensures codeFormatter.Some? ==> r.codeFormatter == codeFormatter.value
  {
    if codeFormatter.None? then ListFormatter(DefaultCodeFormatter) else ListFormatter(codeFormatter.value)
  }

  /** The attributes a codelist document shows by default. */
  const DefaultListAttrs: seq<string> := ["unit", "description"]

  function Header(title: string): string {
    "<html>\n<head><title>" + title + "</title></head>\n<body>\n<h1>" + title + "</h1>\n"
  }

  const Footer: string := "\n</body>\n</html>"

  /** `sorted(codelist.keys())` */
  function SortedCodeNames(codelist: CodeList): (r: seq<string>)
    ensures Sorted(r)
    ensures multiset(r) == multiset(codelist.mapping.keys)
  {
    Sort(codelist.mapping.keys)
  }

  /** The code names come out each once, in sorted order, and are exactly the codelist's codes. */
  lemma SortedCodeNamesOnce(codelist: CodeList)
    ensures var names := SortedCodeNames(codelist);
      Sorted(names) && NoDuplicates(names) &&
      forall k :: k in names <==> k in codelist.mapping.keys
  {
    var names := SortedCodeNames(codelist);
    forall k ensures k in names <==> k in codelist.mapping.keys {
      assert k in names <==> k in multiset(names);
    }
    forall k | k in names ensures multiset(names)[k] <= 1 {
      MultisetOfDistinct(codelist.mapping.keys, k);
    }
    DistinctOfMultiset(names);
  }

  /** The formatting of the code named `k` of `codelist`: `self.code_formatter.format(codelist[k], attr_names=attrs)`. */
  function FormatCode(lf: ListFormatter, codelist: CodeList, attrs: seq<string>): string -> Result<string> {
    k => if k in codelist.mapping.entries then Format(lf.codeFormatter, codelist.mapping.entries[k], Some(attrs))
         else Failure(KeyError)
  }

  /**
   * `VariableCodeListHTMLFormatter.format(codelist, header_title, attrs)`: the
   * header with the title, the formatted codes in sorted order joined by
   * newlines, and the closing tags.
   */
  function FormatList(lf: ListFormatter, codelist: CodeList, headerTitle: string, attrs: seq<string>): (r: Result<string>)
    ensures r.Success? <==> forall k :: k in codelist.mapping.keys ==>
      Format(lf.codeFormatter, codelist.mapping.entries[k], Some(attrs)).Success?
    ensures r.Failure? ==> r.error == AttributeError
    ensures r.Success? ==>
      StartsWith(r.value, "<html>\n<head><title>" + headerTitle + "</title></head>\n<body>\n<h1>" + headerTitle + "</h1>\n")
    ensures r.Success? ==> |r.value| >= |Footer| && r.value[|r.value| - |Footer|..] == "\n</body>\n</html>"
  {
    var names := SortedCodeNames(codelist);
    SortedCodeNamesOnce(codelist);
    var fmt := FormatCode(lf, codelist, attrs);
    var parts :- Each(names, fmt);
    var doc := Header(headerTitle) + Join(parts, '\n') + Footer;
    Framed(Header(headerTitle), Join(parts, '\n'), Footer);
    Success(doc)
  }

  /** A document starts with its header and ends with its footer. */
  lemma Framed(header: string, body: string, footer: string)
    ensures StartsWith(header + body + footer, header)
    ensures var doc := header + body + footer; |doc| >= |footer| && doc[|doc| - |footer|..] == footer
  {
    var doc := header + body + footer;
    assert doc[..|header|] == header;
    assert doc[|doc| - |footer|..] == footer;
  }

  /** The body of the document: every code of the codelist formatted once, in sorted order. */
  lemma FormatListBody(lf: ListFormatter, codelist: CodeList, headerTitle: string, attrs: seq<string>)
    requires FormatList(lf, codelist, headerTitle, attrs).Success?
    ensures var names := SortedCodeNames(codelist);
      Sorted(names) && NoDuplicates(names) && (forall k :: k in names <==> k in codelist.mapping.keys) &&
      Each(names, FormatCode(lf, codelist, attrs)).Success? &&
      FormatList(lf, codelist, headerTitle, attrs).value ==
        Header(headerTitle) + Join(Each(names, FormatCode(lf, codelist, attrs)).value, '\n') + Footer
  {
    SortedCodeNamesOnce(codelist);
  }
}
