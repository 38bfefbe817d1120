/**
 * Device discovery: the list of devices an application's `manifest.xml`
 * declares as supported products (`get_devices`).
 *
 * The XML text is parsed by a library outside this model; the input here is
 * the document that library hands back, either a tree of elements or one of
 * the two ways reading can fail.
 */
module Manifest {
  import opened Wrappers

  /** Namespace of Connect IQ manifests; the manifest binds it to the prefix `iq`. */
  const CONNECT_IQ_NAMESPACE: string := "http://www.garmin.com/xml/connectiq"

  /**
   * The tag of an `iq:product` element once its prefix is resolved. The
   * parsed tree stores every tag in the form "{namespace}local".
   */
  const PRODUCT_TAG: string := "{" + CONNECT_IQ_NAMESPACE + "}product"

  /** An element of the parsed manifest: its qualified tag, its attributes and its children. */
  datatype Element = Element(tag: string, attributes: map<string, string>, children: seq<Element>)

  /** What reading `manifest.xml` yields: a parsed tree, or one of the reader's two failures. */
  datatype Document = Parsed(root: Element) | FileMissing | NotWellFormed

  datatype ManifestError = ManifestNotFound | MalformedManifest

  // ---------------------------------------------------------------------------
  // `get_devices`: findall(".//iq:product"), then keep the truthy ids.
  // ---------------------------------------------------------------------------

  /** The descendants of `e` in document (preorder) order; `e` itself is not one of them. */
  function Descendants(e: Element): (r: seq<Element>)
    ensures forall d :: d in r ==> IsDescendant(d, e)
    decreases e, 1
  {
    Subtrees(e.children)
  }

  /** Every element of the trees rooted at `trees`, each root before its descendants, in document order. */
  function Subtrees(trees: seq<Element>): (r: seq<Element>)
    ensures forall d :: d in r ==> exists i :: 0 <= i < |trees| && (d == trees[i] || IsDescendant(d, trees[i]))
    decreases trees, 0
  {
    if trees == [] then []
    else [trees[0]] + Descendants(trees[0]) + Subtrees(trees[1..])
  }

  /** The elements of `es` tagged `iq:product`, in their order. */
  function Products(es: seq<Element>): (r: seq<Element>)
    ensures |r| <= |es|
    ensures forall i :: 0 <= i < |r| ==> r[i].tag == PRODUCT_TAG
  {
    if es == [] then []
    else (if es[0].tag == PRODUCT_TAG then [es[0]] else []) + Products(es[1..])
  }

  /** The `id` attribute of `e`, if it has one. */
  function GetId(e: Element): Option<string>
  {
    if "id" in e.attributes then Some(e.attributes["id"]) else None
  }

  /** The ids of `products` in order, skipping a missing or empty id. */
  function PresentIds(products: seq<Element>): (r: seq<string>)
    ensures |r| <= |products|
    ensures forall id :: id in r ==> id != ""
  {
    if products == [] then []
    else
      var head := match GetId(products[0])
        case Some(id) => if id != "" then [id] else []
        case None => [];
      head + PresentIds(products[1..])
  }

  /** The devices the manifest rooted at `root` declares. */
  function GetDevices(root: Element): (r: seq<string>)
    ensures forall id :: id in r ==> id != ""
    ensures |r| <= |Descendants(root)|
  {
    PresentIds(Products(Descendants(root)))
  }

  /** Device discovery on the document as read from disk, with the reader's failures passed on. */
  function ReadDevices(doc: Document): (r: Result<seq<string>, ManifestError>)
    ensures r == Failure(ManifestNotFound) <==> doc.FileMissing?
    ensures r == Failure(MalformedManifest) <==> doc.NotWellFormed?
    ensures r.Success? ==> r.value == GetDevices(doc.root)
  {
    match doc
    case Parsed(root) => Success(GetDevices(root))
    case FileMissing => Failure(ManifestNotFound)
    case NotWellFormed => Failure(MalformedManifest)
  }

  // ---------------------------------------------------------------------------
  // Reference definitions, independent of the pipeline above.
  // ---------------------------------------------------------------------------

  /** `d` lies strictly below `e` in the tree. */
  ghost predicate IsDescendant(d: Element, e: Element)
    decreases e
  {
    exists i :: 0 <= i < |e.children| && (d == e.children[i] || IsDescendant(d, e.children[i]))
  }

  /** `e` is an `iq:product` element declaring the device `id`, which is present and non-empty. */
  predicate Declares(e: Element, id: string)
  {
    e.tag == PRODUCT_TAG && "id" in e.attributes && e.attributes["id"] == id && id != ""
  }

  /** `e` is an `iq:product` element declaring some device. */
  predicate DeclaresDevice(e: Element)
  {
    e.tag == PRODUCT_TAG && "id" in e.attributes && e.attributes["id"] != ""
  }

  /** The number of elements of `es` that declare `id`. */
  function CountDeclaring(es: seq<Element>, id: string): nat
  {
    if es == [] then 0
    else (if Declares(es[0], id) then 1 else 0) + CountDeclaring(es[1..], id)
  }

  /** The number of elements of `es` that declare some device. */
  function CountDeclaringAny(es: seq<Element>): nat
  {
    if es == [] then 0
    else (if DeclaresDevice(es[0]) then 1 else 0) + CountDeclaringAny(es[1..])
  }

  /** What the element `e` itself contributes when it is a descendant: its id, or nothing. */
  function OwnDevice(e: Element): (r: seq<string>)
    ensures r == [] <==> !DeclaresDevice(e)
    ensures DeclaresDevice(e) ==> r == [e.attributes["id"]]
    ensures forall id :: id in r <==> Declares(e, id)
  {
    if DeclaresDevice(e) then [e.attributes["id"]] else []
  }

  // ---------------------------------------------------------------------------
  // Properties of device discovery.
  // ---------------------------------------------------------------------------

  /** Selecting products distributes over concatenation of element lists. */
  lemma {:induction false} ProductsAppend(a: seq<Element>, b: seq<Element>)
    ensures Products(a + b) == Products(a) + Products(b)
  {
    if a == [] {
      assert a + b == b;
    } else {
      assert (a + b)[1..] == a[1..] + b;
      ProductsAppend(a[1..], b);
    }
  }

  /** Keeping the present ids distributes over concatenation of product lists. */
  lemma {:induction false} PresentIdsAppend(a: seq<Element>, b: seq<Element>)
    ensures PresentIds(a + b) == PresentIds(a) + PresentIds(b)
  {
    if a == [] {
      assert a + b == b;
    } else {
      assert (a + b)[1..] == a[1..] + b;
      PresentIdsAppend(a[1..], b);
    }
  }

  /** The id pipeline distributes over concatenation of element lists. */
  lemma DevicesOfAppend(a: seq<Element>, b: seq<Element>)
    ensures PresentIds(Products(a + b)) == PresentIds(Products(a)) + PresentIds(Products(b))
  {
    ProductsAppend(a, b);
    PresentIdsAppend(Products(a), Products(b));
  }

  /** Applied to one element, the pipeline yields exactly that element's own contribution. */
  lemma DevicesOfSingle(e: Element)
    ensures PresentIds(Products([e])) == OwnDevice(e)
  {
    assert [e][1..] == [];
  }

  /** `d` occurs in the preorder listing exactly when it lies below `e`. */
  lemma {:induction false} DescendantsExact(d: Element, e: Element)
    ensures d in Descendants(e) <==> IsDescendant(d, e)
    decreases e, 1
  {
    SubtreesExact(d, e.children);
  }

  /** `d` occurs in the listing of `trees` exactly when it is one of them or lies below one. */
  lemma {:induction false} SubtreesExact(d: Element, trees: seq<Element>)
    ensures d in Subtrees(trees) <==>
      exists i :: 0 <= i < |trees| && (d == trees[i] || IsDescendant(d, trees[i]))
    decreases trees, 0
  {
    if trees != [] {
      DescendantsExact(d, trees[0]);
      SubtreesExact(d, trees[1..]);
      if exists i :: 0 <= i < |trees| && (d == trees[i] || IsDescendant(d, trees[i])) {
        var i :| 0 <= i < |trees| && (d == trees[i] || IsDescendant(d, trees[i]));
        if i > 0 {
          assert trees[1..][i - 1] == trees[i];
        }
      }
      if d in Subtrees(trees[1..]) {
        var j :| 0 <= j < |trees[1..]| && (d == trees[1..][j] || IsDescendant(d, trees[1..][j]));
        assert trees[j + 1] == trees[1..][j];
      }
    }
  }

  /** An id is produced by the pipeline on `es` exactly when some element of `es` declares it. */
  lemma {:induction false} DevicesOfMembership(es: seq<Element>, id: string)
    ensures id in PresentIds(Products(es)) <==> exists e :: e in es && Declares(e, id)
  {
    if es != [] {
      assert es == [es[0]] + es[1..];
      DevicesOfAppend([es[0]], es[1..]);
      DevicesOfSingle(es[0]);
      DevicesOfMembership(es[1..], id);
    }
  }

  /**
   * Every device returned is non-empty and is the id of an `iq:product`
   * element below the root, and every such element's id is returned.
   */
  lemma GetDevicesMembership(root: Element, id: string)
    ensures id in GetDevices(root) <==> exists d :: IsDescendant(d, root) && Declares(d, id)
  {
    DevicesOfMembership(Descendants(root), id);
    forall d ensures d in Descendants(root) <==> IsDescendant(d, root) {
      DescendantsExact(d, root);
    }
  }

  /** The pipeline keeps one entry per declaring element, duplicates included. */
  lemma {:induction false} DevicesOfCount(es: seq<Element>, id: string)
    ensures multiset(PresentIds(Products(es)))[id] == CountDeclaring(es, id)
    ensures |PresentIds(Products(es))| == CountDeclaringAny(es)
  {
    if es != [] {
      assert es == [es[0]] + es[1..];
      DevicesOfAppend([es[0]], es[1..]);
      DevicesOfSingle(es[0]);
      DevicesOfCount(es[1..], id);
    }
  }

  /**
   * No deduplication and no dropping: a device appears in the result as often
   * as `iq:product` elements below the root declare it, and the result is as
   * long as the number of product elements with a non-empty id. The counts
   * are taken over the preorder listing; DescendantsExact ties that listing
   * to the tree as a set of elements, and DocumentOrder, by induction over
   * the children, fixes how often each element of the tree is listed.
   */
  lemma GetDevicesCount(root: Element, id: string)
    ensures multiset(GetDevices(root))[id] == CountDeclaring(Descendants(root), id)
    ensures |GetDevices(root)| == CountDeclaringAny(Descendants(root))
  {
    DevicesOfCount(Descendants(root), id);
  }

  /** The result is empty exactly when no element below the root declares a device. */
  lemma GetDevicesEmpty(root: Element)
    ensures GetDevices(root) == [] <==> forall d :: IsDescendant(d, root) ==> !DeclaresDevice(d)
  {
    if GetDevices(root) != [] {
      var id := GetDevices(root)[0];
      GetDevicesMembership(root, id);
    } else {
      forall d | IsDescendant(d, root) ensures !DeclaresDevice(d) {
        if DeclaresDevice(d) {
          assert Declares(d, d.attributes["id"]);
          GetDevicesMembership(root, d.attributes["id"]);
        }
      }
    }
  }

  /**
   * Document order. The root contributes nothing, whatever its tag and
   * attributes, and appending a child to the root appends that child's own
   * id, then the ids below it, after everything already returned.
   */
  lemma DocumentOrder(tag: string, attributes: map<string, string>, children: seq<Element>, child: Element)
    ensures GetDevices(Element(tag, attributes, [])) == []
    ensures GetDevices(Element(tag, attributes, children + [child]))
         == GetDevices(Element(tag, attributes, children)) + OwnDevice(child) + GetDevices(child)
  {
    assert Descendants(Element(tag, attributes, [])) == [];
    SubtreesAppend(children, child);
    var before := Subtrees(children);
    DevicesOfAppend(before + [child], Descendants(child));
    DevicesOfAppend(before, [child]);
    DevicesOfSingle(child);
  }

  /** The preorder listing of `trees + [t]` lists `trees` first, then `t`, then the elements below `t`. */
  lemma {:induction false} SubtreesAppend(trees: seq<Element>, t: Element)
    ensures Subtrees(trees + [t]) == Subtrees(trees) + [t] + Descendants(t)
  {
    if trees == [] {
      assert [t][1..] == [];
    } else {
      assert (trees + [t])[1..] == trees[1..] + [t];
      SubtreesAppend(trees[1..], t);
    }
  }

  // ---------------------------------------------------------------------------
  // The manifest used by the repository's unit test.
  // ---------------------------------------------------------------------------

  /** An element in the Connect IQ namespace with local name `local`. */
  function IqElement(local: string, attributes: map<string, string>, children: seq<Element>): Element
  {
    Element("{" + CONNECT_IQ_NAMESPACE + "}" + local, attributes, children)
  }

  /** The parsed form of the test manifest: one application declaring five products. */
  function TestManifest(): Element
  {
    IqElement("manifest", map["version" := "3"], [TestApplication()])
  }

  function TestApplication(): Element
  {
    IqElement("application",
      map["id" := "0531c950-69a4-4693-a328-f926ba20427e", "type" := "watchface",
          "name" := "@Strings.AppName", "entry" := "SomeApp"],
      [TestProductList()] + TestSections())
  }

  function TestProductList(): Element
  {
    IqElement("products", map[], TestProducts())
  }

  function TestSections(): seq<Element>
  {
    [ IqElement("permissions", map[], []),
      IqElement("languages", map[], []),
      IqElement("barrels", map[], []) ]
  }

  function TestProducts(): seq<Element>
  {
    [ IqElement("product", map["id" := "approachs60"], []),
      IqElement("product", map["id" := "approachs62"], []),
      IqElement("product", map["id" := "epix2"], []),
      IqElement("product", map["id" := "fr255"], []),
      IqElement("product", map["id" := "venu2"], []) ]
  }

  /** An element of the Connect IQ namespace is a product exactly when its local name is `product`. */
  lemma IqElementIsProduct(local: string, attributes: map<string, string>, children: seq<Element>)
    ensures IqElement(local, attributes, children).tag == PRODUCT_TAG <==> local == "product"
  {
    var prefix := "{" + CONNECT_IQ_NAMESPACE + "}";
    assert PRODUCT_TAG == prefix + "product";
    assert (prefix + local)[|prefix|..] == local;
    assert (prefix + "product")[|prefix|..] == "product";
  }

  /** A list of leaves is its own preorder listing. */
  lemma {:induction false} SubtreesOfLeaves(trees: seq<Element>)
    requires forall i :: 0 <= i < |trees| ==> trees[i].children == []
    ensures Subtrees(trees) == trees
  {
    if trees != [] {
      assert Descendants(trees[0]) == [];
      SubtreesOfLeaves(trees[1..]);
    }
  }

  /** The preorder listing of `a + b` lists the trees of `a`, then those of `b`. */
  lemma {:induction false} SubtreesAppendAll(a: seq<Element>, b: seq<Element>)
    ensures Subtrees(a + b) == Subtrees(a) + Subtrees(b)
  {
    if a == [] {
      assert a + b == b;
    } else {
      assert (a + b)[1..] == a[1..] + b;
      SubtreesAppendAll(a[1..], b);
    }
  }

  /** A list without `iq:product` elements selects no product. */
  lemma {:induction false} NoProducts(es: seq<Element>)
    requires forall i :: 0 <= i < |es| ==> es[i].tag != PRODUCT_TAG
    ensures Products(es) == []
  {
    if es != [] {
      NoProducts(es[1..]);
    }
  }

  /** The test manifest lists its elements in this document order. */
  lemma TestManifestOrder()
    ensures Descendants(TestManifest())
         == [TestApplication(), TestProductList()] + TestProducts() + TestSections()
  {
    SubtreesOfLeaves(TestProducts());
    SubtreesOfLeaves(TestSections());
    assert Descendants(TestProductList()) == TestProducts();
    SubtreesAppendAll([TestProductList()], TestSections());
    assert Subtrees([TestProductList()]) == [TestProductList()] + TestProducts() by {
      assert [TestProductList()][1..] == [];
    }
    assert Descendants(TestApplication()) == [TestProductList()] + TestProducts() + TestSections();
    assert [TestApplication()][1..] == [];
  }

  /** None of the test manifest's other elements is a product. */
  lemma TestOthersIgnored()
    ensures Products([TestApplication(), TestProductList()]) == []
    ensures Products(TestSections()) == []
  {
    IqElementIsProduct("application", TestApplication().attributes, TestApplication().children);
    IqElementIsProduct("products", map[], TestProducts());
    IqElementIsProduct("permissions", map[], []);
    IqElementIsProduct("languages", map[], []);
    IqElementIsProduct("barrels", map[], []);
    NoProducts([TestApplication(), TestProductList()]);
    NoProducts(TestSections());
  }

  /** The five test products contribute their ids in order. */
  lemma TestProductIds()
    ensures PresentIds(Products(TestProducts())) == ["approachs60", "approachs62", "epix2", "fr255", "venu2"]
  {
    var ps := TestProducts();
    forall i | 0 <= i < |ps| ensures ps[i].tag == PRODUCT_TAG {
      IqElementIsProduct("product", ps[i].attributes, []);
    }
    AllProducts(ps);
  }

  /** On the test manifest, discovery yields the five products in document order. */
  lemma TestManifestDevices()
    ensures GetDevices(TestManifest()) == ["approachs60", "approachs62", "epix2", "fr255", "venu2"]
  {
    TestManifestOrder();
    var others := [TestApplication(), TestProductList()];
    DevicesOfAppend(others + TestProducts(), TestSections());
    DevicesOfAppend(others, TestProducts());
    TestOthersIgnored();
    TestProductIds();
  }

  /** A list of `iq:product` elements is kept whole by the product selection. */
  lemma {:induction false} AllProducts(ps: seq<Element>)
    requires forall i :: 0 <= i < |ps| ==> ps[i].tag == PRODUCT_TAG
    ensures Products(ps) == ps
  {
    if ps != [] {
      AllProducts(ps[1..]);
    }
  }
}
