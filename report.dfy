/**
 * The aggregation rules of the report generator (Report.py): the indented category
 * tree, the grouping of post titles by category, the per-author post count and the
 * orders the report lists them in.
 *
 * JSON records are reduced to the members these rules read. A Python dict that is
 * built up and then iterated is a list of keys in insertion order beside a map from
 * key to value, since Python dicts iterate in insertion order.
 */
module Report {
  import opened Wrappers
  import opened Strings
  import opened Sorting

  // ---------------------------------------------------------------------------
  // Category tree (Report.py:23-30)

  datatype Category = Category(id: Option<int>, name: Option<string>, parent: Option<int>)

  function IdOr0(c: Category): int { c.id.GetOr(0) }
  function ParentOr0(c: Category): int { c.parent.GetOr(0) }

  const Folder := "\U{1F4C2} "
  const Step := "    "

  /** One line of the tree: `f"{prefix}📂 {cat.get('name', '')}\n"`. */
  function Line(prefix: string, c: Category): string {
    prefix + Folder + c.name.GetOr("") + "\n"
  }

  /** The categories whose parent (0 when missing) is `parent`, in input order: all of
      them, as often as they occur, and no other. */
  function Children(cats: seq<Category>, parent: int): (r: seq<Category>)
    ensures forall c :: c in r ==> c in cats && ParentOr0(c) == parent
    ensures forall c :: multiset(r)[c] == if ParentOr0(c) == parent then multiset(cats)[c] else 0
    ensures Subsequence(r, cats)
    ensures r == [] <==> forall c :: c in cats ==> ParentOr0(c) != parent
    decreases |cats|
  {
    if |cats| == 0 then []
    else
      var rest := Children(cats[1..], parent);
      assert cats == [cats[0]] + cats[1..];
      if ParentOr0(cats[0]) == parent then
        assert ([cats[0]] + rest)[1..] == rest;
        [cats[0]] + rest
      else
        assert rest != [] ==> rest[0] in rest && rest[0] != cats[0];
        rest
  }

  /** `a` is `b` with some elements left out and the others in their order. */
  predicate Subsequence<T(==)>(a: seq<T>, b: seq<T>)
    decreases |b|
  {
    if |a| == 0 then true
    else if |b| == 0 then false
    else if a[0] == b[0] then Subsequence(a[1..], b[1..])
    else Subsequence(a, b[1..])
  }

  /** `rank` orders the part of the category tree that `tree_categories` walks: a
      category under a parent of positive rank has a smaller, still positive rank. Rank 0
      marks the ids the walk never reaches, whose parent links are free, cycles
      included. The walk from a parent of positive rank then ends. A reached cycle admits
      no such rank; so does a reached category whose id is missing or 0 when the walk
      starts at the roots, since its subtree starts there again. */
  ghost predicate RanksParents(cats: seq<Category>, rank: int -> nat) {
    forall c :: c in cats && rank(ParentOr0(c)) > 0 ==> 0 < rank(IdOr0(c)) < rank(ParentOr0(c))
  }

  /** `tree_categories(categories, parent, prefix)`: empty exactly when no category
      hangs under `parent`. */
  function TreeCategories(cats: seq<Category>, parent: int, prefix: string, ghost rank: int -> nat): (r: string)
    requires RanksParents(cats, rank) && rank(parent) > 0
    ensures r == "" <==> Children(cats, parent) == []
    decreases rank(parent), 1, 0
  {
    Forest(cats, Children(cats, parent), prefix, rank, rank(parent))
  }

  /** The loop of `tree_categories` over the children `xs`: each line followed by the
      child's own subtree, one step further in. */
  function Forest(cats: seq<Category>, xs: seq<Category>, prefix: string, ghost rank: int -> nat, ghost bound: nat)
    : (r: string)
    requires RanksParents(cats, rank)
    requires forall c :: c in xs ==> c in cats && 0 < rank(IdOr0(c)) < bound
    ensures r == "" <==> xs == []
    decreases bound, 0, |xs|
  {
    if |xs| == 0 then ""
    else
      assert xs[0] in xs;
      Line(prefix, xs[0]) + TreeCategories(cats, IdOr0(xs[0]), prefix + Step, rank)
        + Forest(cats, xs[1..], prefix, rank, bound)
  }

  // An independent description of the tree: the categories in pre-order, each with
  // its depth below `parent`.

  function Indent(depth: nat): string {
    if depth == 0 then "" else Step + Indent(depth - 1)
  }

  function Shift(o: seq<(nat, Category)>): (r: seq<(nat, Category)>)
    ensures |r| == |o|
    ensures forall i :: 0 <= i < |o| ==> r[i] == (o[i].0 + 1, o[i].1)
  {
    seq(|o|, i requires 0 <= i < |o| => (o[i].0 + 1, o[i].1))
  }

  function OutlineTree(cats: seq<Category>, parent: int, ghost rank: int -> nat): seq<(nat, Category)>
    requires RanksParents(cats, rank) && rank(parent) > 0
    decreases rank(parent), 1, 0
  {
    OutlineForest(cats, Children(cats, parent), rank, rank(parent))
  }

  function OutlineForest(cats: seq<Category>, xs: seq<Category>, ghost rank: int -> nat, ghost bound: nat)
    : seq<(nat, Category)>
    requires RanksParents(cats, rank)
    requires forall c :: c in xs ==> c in cats && 0 < rank(IdOr0(c)) < bound
    decreases bound, 0, |xs|
  {
    if |xs| == 0 then []
    else
      assert xs[0] in xs;
      [(0, xs[0])] + Shift(OutlineTree(cats, IdOr0(xs[0]), rank)) + OutlineForest(cats, xs[1..], rank, bound)
  }

  /** One line per outline entry, indented four spaces per level. */
  function RenderOutline(prefix: string, o: seq<(nat, Category)>): string
    decreases |o|
  {
    if |o| == 0 then "" else Line(prefix + Indent(o[0].0), o[0].1) + RenderOutline(prefix, o[1..])
  }

  /** The categories at depth 0, in order. */
  function TopLevel(o: seq<(nat, Category)>): seq<Category>
    decreases |o|
  {
    if |o| == 0 then [] else (if o[0].0 == 0 then [o[0].1] else []) + TopLevel(o[1..])
  }

  lemma {:induction false} RenderOutlineAppend(prefix: string, a: seq<(nat, Category)>, b: seq<(nat, Category)>)
    ensures RenderOutline(prefix, a + b) == RenderOutline(prefix, a) + RenderOutline(prefix, b)
    decreases |a|
  {
    if |a| > 0 {
      assert (a + b)[1..] == a[1..] + b;
      RenderOutlineAppend(prefix, a[1..], b);
    } else {
      assert a + b == b;
    }
  }

  lemma {:induction false} RenderOutlineShift(prefix: string, o: seq<(nat, Category)>)
    ensures RenderOutline(prefix, Shift(o)) == RenderOutline(prefix + Step, o)
    decreases |o|
  {
    if |o| > 0 {
      var s := Shift(o);
      assert s[0] == (o[0].0 + 1, o[0].1);
      assert s[1..] == Shift(o[1..]);
      calc {
        RenderOutline(prefix, s);
        Line(prefix + Indent(o[0].0 + 1), o[0].1) + RenderOutline(prefix, Shift(o[1..]));
        { IndentOneMore(prefix, o[0].0); RenderOutlineShift(prefix, o[1..]); }
        Line((prefix + Step) + Indent(o[0].0), o[0].1) + RenderOutline(prefix + Step, o[1..]);
      }
    }
  }

  lemma IndentOneMore(prefix: string, depth: nat)
    ensures prefix + Indent(depth + 1) == (prefix + Step) + Indent(depth)
  {
    assert Indent(depth + 1) == Step + Indent(depth);
  }

  lemma {:induction false} TopLevelAppend(a: seq<(nat, Category)>, b: seq<(nat, Category)>)
    ensures TopLevel(a + b) == TopLevel(a) + TopLevel(b)
    decreases |a|
  {
    if |a| > 0 {
      assert (a + b)[1..] == a[1..] + b;
      TopLevelAppend(a[1..], b);
    } else {
      assert a + b == b;
    }
  }

  lemma {:induction false} TopLevelOfShift(o: seq<(nat, Category)>)
    ensures TopLevel(Shift(o)) == []
    decreases |o|
  {
    if |o| > 0 {
      assert Shift(o)[1..] == Shift(o[1..]);
      TopLevelOfShift(o[1..]);
    }
  }

  /** The tree text is the outline rendered line by line: each category's line, at four
      spaces per level below `parent`, directly followed by its own subtree. */
  lemma {:induction false} TreeIsOutline(cats: seq<Category>, parent: int, prefix: string, rank: int -> nat)
    requires RanksParents(cats, rank) && rank(parent) > 0
    ensures TreeCategories(cats, parent, prefix, rank) == RenderOutline(prefix, OutlineTree(cats, parent, rank))
    decreases rank(parent), 1, 0
  {
    ForestIsOutline(cats, Children(cats, parent), prefix, rank, rank(parent));
  }

  lemma {:induction false} ForestIsOutline(cats: seq<Category>, xs: seq<Category>, prefix: string, rank: int -> nat,
                                          bound: nat)
    requires RanksParents(cats, rank)
    requires forall c :: c in xs ==> c in cats && 0 < rank(IdOr0(c)) < bound
    ensures Forest(cats, xs, prefix, rank, bound) == RenderOutline(prefix, OutlineForest(cats, xs, rank, bound))
    decreases bound, 0, |xs|
  {
    if |xs| > 0 {
      assert xs[0] in xs;
      var sub := OutlineTree(cats, IdOr0(xs[0]), rank);
      var rest := OutlineForest(cats, xs[1..], rank, bound);
      var head: seq<(nat, Category)> := [(0, xs[0])];
      calc {
        RenderOutline(prefix, OutlineForest(cats, xs, rank, bound));
        RenderOutline(prefix, head + Shift(sub) + rest);
        { RenderOutlineAppend(prefix, head + Shift(sub), rest); RenderOutlineAppend(prefix, head, Shift(sub)); }
        RenderOutline(prefix, head) + RenderOutline(prefix, Shift(sub)) + RenderOutline(prefix, rest);
        { RenderTopEntry(prefix, xs[0]); RenderOutlineShift(prefix, sub);
          TreeIsOutline(cats, IdOr0(xs[0]), prefix + Step, rank); ForestIsOutline(cats, xs[1..], prefix, rank, bound); }
        Line(prefix, xs[0]) + TreeCategories(cats, IdOr0(xs[0]), prefix + Step, rank) + Forest(cats, xs[1..], prefix, rank, bound);
      }
    }
  }

  lemma RenderTopEntry(prefix: string, c: Category)
    ensures RenderOutline(prefix, [(0, c)]) == Line(prefix, c)
  {
    assert [(0, c)][1..] == [];
    assert prefix + Indent(0) == prefix;
  }

  /** The categories listed at the outermost level are exactly the children of
      `parent`, in input order. */
  lemma {:induction false} OutlineTopLevel(cats: seq<Category>, parent: int, rank: int -> nat)
    requires RanksParents(cats, rank) && rank(parent) > 0
    ensures TopLevel(OutlineTree(cats, parent, rank)) == Children(cats, parent)
  {
    ForestTopLevel(cats, Children(cats, parent), rank, rank(parent));
  }

  lemma {:induction false} ForestTopLevel(cats: seq<Category>, xs: seq<Category>, rank: int -> nat, bound: nat)
    requires RanksParents(cats, rank)
    requires forall c :: c in xs ==> c in cats && 0 < rank(IdOr0(c)) < bound
    ensures TopLevel(OutlineForest(cats, xs, rank, bound)) == xs
    decreases |xs|
  {
    if |xs| > 0 {
      assert xs[0] in xs;
      var sub := OutlineTree(cats, IdOr0(xs[0]), rank);
      var rest := OutlineForest(cats, xs[1..], rank, bound);
      ForestTopLevel(cats, xs[1..], rank, bound);
      TopLevelOfShift(sub);
      TopLevelAppend([(0, xs[0])] + Shift(sub), rest);
      TopLevelAppend([(0, xs[0])], Shift(sub));
      assert TopLevel([(0, xs[0])]) == [xs[0]];
      assert xs == [xs[0]] + xs[1..];
    }
  }

  /** A cycle the walk never reaches does not stop it: under
      `[{id: 1, parent: 0}, {id: 7, parent: 7}]` the tree is category 1 alone. */
  lemma UnreachedCycleIgnored()
    ensures var c1 := Category(Some(1), Some("a"), Some(0));
      var c7 := Category(Some(7), Some("b"), Some(7));
      var rank := (x: int) => if x == 0 then 2 else if x == 1 then 1 else 0;
      RanksParents([c1, c7], rank) && TreeCategories([c1, c7], 0, "", rank) == Line("", c1)
  {
    var c1 := Category(Some(1), Some("a"), Some(0));
    var c7 := Category(Some(7), Some("b"), Some(7));
    var cats := [c1, c7];
    var rank := (x: int) => if x == 0 then 2 else if x == 1 then 1 else 0;
    assert Children(cats, 0) == [c1] by {
      assert cats[1..] == [c7];
      assert cats[1..][1..] == [];
    }
    assert Children(cats, 1) == [] by {
      assert cats[1..] == [c7];
      assert cats[1..][1..] == [];
    }
    assert [c1][1..] == [];
    assert Line("", c1) + "" + "" == Line("", c1);
  }

  // ---------------------------------------------------------------------------
  // Titles grouped by category (Report.py:33-43)

  /** The `title` member of a post: missing, an object (with or without `rendered`),
      or anything else (`null`, a string), on which `.get` raises AttributeError. */
  datatype Title = NoTitle | TitleObject(rendered: Field<string>) | TitleNotObject

  /** A post as the report reads it: its category ids, its title and its author. */
  datatype PostRecord = PostRecord(categories: Field<seq<int>>, title: Title, author: Option<int>)

  datatype ReportError =
    | MissingCategoryKey   // `cat['id']` or `cat['name']` raises KeyError
    | CategoriesNotAList   // iterating a `null` category list raises TypeError
    | TitleNotAnObject     // `.get('rendered', '')` on a non-object title raises AttributeError

  /** `post.get('title', {}).get('rendered', '')`, as the report prints it; `None` when
      it raises. */
  function TitleText(t: Title): Option<string> {
    match t
    case NoTitle => Some("")
    case TitleObject(Absent) => Some("")
    case TitleObject(Null) => Some("None")
    case TitleObject(Present(s)) => Some(s)
    case TitleNotObject => None
  }

  /** `cat_map`: id to name, each category in turn, so a later duplicate id wins. */
  function CategoryNames(cats: seq<Category>): Result<map<int, string>, ReportError>
    decreases |cats|
  {
    if |cats| == 0 then Success(map[])
    else
      var c := cats[|cats| - 1];
      match CategoryNames(cats[..|cats| - 1])
      case Failure(e) => Failure(e)
      case Success(m) =>
        if c.id.None? || c.name.None? then Failure(MissingCategoryKey)
        else Success(m[c.id.value := c.name.value])
  }

  /** `cat_map.get(cat_id, f"ID:{cat_id}")` */
  function Label(names: map<int, string>, id: int): string {
    if id in names then names[id] else "ID:" + IntToDecimal(id)
  }

  /** Each id of a post paired with the post's title. */
  function Labelled(ids: seq<int>, names: map<int, string>, title: string): (r: seq<(string, string)>)
    ensures |r| == |ids|
    ensures forall k :: 0 <= k < |ids| ==> r[k] == (Label(names, ids[k]), title)
  {
    seq(|ids|, k requires 0 <= k < |ids| => (Label(names, ids[k]), title))
  }

  /** The (category label, title) pairs one post contributes, in its category order. */
  function PostEntries(post: PostRecord, names: map<int, string>): Result<seq<(string, string)>, ReportError> {
    match post.categories
    case Absent => Success([])
    case Null => Failure(CategoriesNotAList)
    case Present(ids) =>
      if |ids| == 0 then Success([])
      else match TitleText(post.title)
        case None => Failure(TitleNotAnObject)
        case Some(t) => Success(Labelled(ids, names, t))
  }

  lemma LabelledSnoc(ids: seq<int>, j: nat, names: map<int, string>, title: string)
    requires j < |ids|
    ensures Labelled(ids[..j + 1], names, title) == Labelled(ids[..j], names, title) + [(Label(names, ids[j]), title)]
  {
    var a := Labelled(ids[..j + 1], names, title);
    var b := Labelled(ids[..j], names, title) + [(Label(names, ids[j]), title)];
    assert |a| == |b|;
    forall k | 0 <= k < |a| ensures a[k] == b[k] {
      assert ids[..j + 1][k] == ids[k];
    }
  }

  /** The pairs of all posts, in the order of the two nested loops; the first failing
      post ends the run. */
  function Entries(posts: seq<PostRecord>, names: map<int, string>): Result<seq<(string, string)>, ReportError>
    decreases |posts|
  {
    if |posts| == 0 then Success([])
    else match Entries(posts[..|posts| - 1], names)
      case Failure(e) => Failure(e)
      case Success(es) =>
        match PostEntries(posts[|posts| - 1], names)
        case Failure(e) => Failure(e)
        case Success(pe) => Success(es + pe)
  }

  /** A dict from label to titles: its keys in insertion order beside the map. */
  datatype Groups = Groups(keys: seq<string>, titles: map<string, seq<string>>)

  /** `result.setdefault(key, []).append(title)` */
  function SetDefaultAppend(g: Groups, key: string, title: string): Groups {
    if key in g.titles then Groups(g.keys, g.titles[key := g.titles[key] + [title]])
    else Groups(g.keys + [key], g.titles[key := [title]])
  }

  function GroupEntries(es: seq<(string, string)>): Groups
    decreases |es|
  {
    if |es| == 0 then Groups([], map[])
    else
      var e := es[|es| - 1];
      SetDefaultAppend(GroupEntries(es[..|es| - 1]), e.0, e.1)
  }

  /** `posts_per_category(posts, categories)` */
  function PostsPerCategorySpec(posts: seq<PostRecord>, cats: seq<Category>): Result<Groups, ReportError> {
    match CategoryNames(cats)
    case Failure(e) => Failure(e)
    case Success(names) =>
      match Entries(posts, names)
      case Failure(e) => Failure(e)
      case Success(es) => Success(GroupEntries(es))
  }

  lemma {:induction false} CategoryNamesFailureFinal(cats: seq<Category>, n: nat)
    requires n <= |cats| && CategoryNames(cats[..n]).Failure?
    ensures CategoryNames(cats) == CategoryNames(cats[..n])
    decreases |cats| - n
  {
    if n < |cats| {
      assert cats[..|cats| - 1][..n] == cats[..n];
      CategoryNamesFailureFinal(cats[..|cats| - 1], n);
      assert cats[..|cats|] == cats;
    } else {
      assert cats[..n] == cats;
    }
  }

  lemma {:induction false} EntriesFailureFinal(posts: seq<PostRecord>, names: map<int, string>, n: nat)
    requires n <= |posts| && Entries(posts[..n], names).Failure?
    ensures Entries(posts, names) == Entries(posts[..n], names)
    decreases |posts| - n
  {
    if n < |posts| {
      assert posts[..|posts| - 1][..n] == posts[..n];
      EntriesFailureFinal(posts[..|posts| - 1], names, n);
    } else {
      assert posts[..n] == posts;
    }
  }

  lemma GroupEntriesSnoc(es: seq<(string, string)>, e: (string, string))
    ensures GroupEntries(es + [e]) == SetDefaultAppend(GroupEntries(es), e.0, e.1)
  {
    assert (es + [e])[..|es|] == es;
  }

  /** `posts_per_category(posts, categories)` (Report.py:33-43): `cat_map` is built by
      a comprehension, then the titles are filed post by post. */
  method PostsPerCategory(posts: seq<PostRecord>, cats: seq<Category>) returns (r: Result<Groups, ReportError>)
    ensures r == PostsPerCategorySpec(posts, cats)
  {
    var names := CategoryNames(cats);
    if names.Failure? {
      return Failure(names.error);
    }
    var catMap := names.value;
    var result := Groups([], map[]);
    ghost var es: seq<(string, string)> := [];
    for i := 0 to |posts|
      invariant Entries(posts[..i], catMap) == Success(es)
      invariant result == GroupEntries(es)
    {
      assert posts[..i + 1][..i] == posts[..i];
      var filed := FilePost(result, posts[i], catMap, es);
      if filed.Failure? {
        EntriesFailureFinal(posts, catMap, i + 1);
        return Failure(filed.error);
      }
      result := filed.value;
      es := es + PostEntries(posts[i], catMap).value;
    }
    assert posts[..|posts|] == posts;
    r := Success(result);
  }

  /** The inner loop of `posts_per_category`: the post's title filed under each of its
      categories, the title being read afresh for each one. */
  method FilePost(g: Groups, post: PostRecord, catMap: map<int, string>, ghost es: seq<(string, string)>)
    returns (r: Result<Groups, ReportError>)
    requires g == GroupEntries(es)
    ensures PostEntries(post, catMap).Failure? ==> r == Failure(PostEntries(post, catMap).error)
    ensures PostEntries(post, catMap).Success? ==> r == Success(GroupEntries(es + PostEntries(post, catMap).value))
  {
    if post.categories.Null? {
      return Failure(CategoriesNotAList);
    }
    var ids := if post.categories.Present? then post.categories.value else [];
    var keys := g.keys;
    var titles := g.titles;
    ghost var t := TitleText(post.title).GetOr("");
    ghost var filed: seq<(string, string)> := [];
    assert es + filed == es;
    for j := 0 to |ids|
      invariant Groups(keys, titles) == GroupEntries(es + filed)
      invariant 0 < j ==> TitleText(post.title) == Some(t)
      invariant filed == Labelled(ids[..j], catMap, t)
    {
      var catId := ids[j];
      var catName := Label(catMap, catId);
      var title := TitleText(post.title);
      if title.None? {
        return Failure(TitleNotAnObject);
      }
      ghost var before := Groups(keys, titles);
      FiledSnoc(es, filed, ids, j, catMap, t);
      filed := filed + [(catName, t)];
      if catName in titles {
        titles := titles[catName := titles[catName] + [title.value]];
      } else {
        keys := keys + [catName];
        titles := titles[catName := [title.value]];
      }
      assert Groups(keys, titles) == SetDefaultAppend(before, catName, t);
    }
    FiledAll(post, catMap, ids, t);
    r := Success(Groups(keys, titles));
  }

  lemma FiledSnoc(es: seq<(string, string)>, filed: seq<(string, string)>, ids: seq<int>, j: nat,
                  catMap: map<int, string>, title: string)
    requires j < |ids|
    requires filed == Labelled(ids[..j], catMap, title)
    ensures filed + [(Label(catMap, ids[j]), title)] == Labelled(ids[..j + 1], catMap, title)
    ensures GroupEntries(es + (filed + [(Label(catMap, ids[j]), title)]))
      == SetDefaultAppend(GroupEntries(es + filed), Label(catMap, ids[j]), title)
  {
    LabelledSnoc(ids, j, catMap, title);
    var e := (Label(catMap, ids[j]), title);
    assert es + (filed + [e]) == es + filed + [e];
    GroupEntriesSnoc(es + filed, e);
  }

  lemma FiledAll(post: PostRecord, catMap: map<int, string>, ids: seq<int>, t: string)
    requires post.categories.Present? || post.categories.Absent?
    requires ids == if post.categories.Present? then post.categories.value else []
    requires 0 < |ids| ==> TitleText(post.title) == Some(t)
    ensures PostEntries(post, catMap) == Success(Labelled(ids[..|ids|], catMap, t))
  {
    assert ids[..|ids|] == ids;
  }

  /** Building `cat_map` fails exactly when some category lacks its id or its name;
      otherwise each id maps to the name of the last category carrying it. */
  lemma CategoryNamesLastWins(cats: seq<Category>)
    ensures CategoryNames(cats).Failure? <==> exists i :: 0 <= i < |cats| && (cats[i].id.None? || cats[i].name.None?)
    ensures CategoryNames(cats).Success? ==>
      (forall id :: id in CategoryNames(cats).value <==> exists i :: 0 <= i < |cats| && cats[i].id == Some(id)) &&
      (forall i :: 0 <= i < |cats| && (forall j :: i < j < |cats| ==> cats[j].id != cats[i].id) ==>
        cats[i].id.Some? && cats[i].id.value in CategoryNames(cats).value &&
        CategoryNames(cats).value[cats[i].id.value] == cats[i].name.value)
  {
    CategoryNamesFailure(cats);
    if CategoryNames(cats).Success? {
      CategoryNamesKeys(cats);
      forall i | 0 <= i < |cats| && (forall j :: i < j < |cats| ==> cats[j].id != cats[i].id)
        ensures cats[i].id.Some? && cats[i].id.value in CategoryNames(cats).value &&
          CategoryNames(cats).value[cats[i].id.value] == cats[i].name.value
      {
        CategoryNameAt(cats, i);
      }
    }
  }

  lemma {:induction false} CategoryNamesFailure(cats: seq<Category>)
    ensures CategoryNames(cats).Failure? <==> exists i :: 0 <= i < |cats| && (cats[i].id.None? || cats[i].name.None?)
    decreases |cats|
  {
    if |cats| > 0 {
      var init := cats[..|cats| - 1];
      CategoryNamesFailure(init);
      if exists i :: 0 <= i < |init| && (init[i].id.None? || init[i].name.None?) {
        var i :| 0 <= i < |init| && (init[i].id.None? || init[i].name.None?);
        assert cats[i] == init[i];
      }
      if exists i :: 0 <= i < |cats| && (cats[i].id.None? || cats[i].name.None?) {
        var i :| 0 <= i < |cats| && (cats[i].id.None? || cats[i].name.None?);
        if i < |init| {
          assert init[i] == cats[i];
        }
      }
    }
  }

  lemma {:induction false} CategoryNamesKeys(cats: seq<Category>)
    requires CategoryNames(cats).Success?
    ensures forall id :: id in CategoryNames(cats).value <==> exists i :: 0 <= i < |cats| && cats[i].id == Some(id)
    decreases |cats|
  {
    if |cats| > 0 {
      var init := cats[..|cats| - 1];
      CategoryNamesKeys(init);
      var last := cats[|cats| - 1];
      var m := CategoryNames(cats).value;
      forall id ensures id in m <==> exists i :: 0 <= i < |cats| && cats[i].id == Some(id) {
        if id in m && id != last.id.value {
          var i :| 0 <= i < |init| && init[i].id == Some(id);
          assert cats[i].id == Some(id);
        }
        if exists i :: 0 <= i < |cats| && cats[i].id == Some(id) {
          var i :| 0 <= i < |cats| && cats[i].id == Some(id);
          if i < |init| {
            assert init[i].id == Some(id);
          }
        }
      }
    }
  }

  lemma {:induction false} CategoryNameAt(cats: seq<Category>, i: nat)
    requires CategoryNames(cats).Success? && i < |cats|
    requires forall j :: i < j < |cats| ==> cats[j].id != cats[i].id
    ensures cats[i].id.Some? && cats[i].name.Some? && cats[i].id.value in CategoryNames(cats).value
    ensures CategoryNames(cats).value[cats[i].id.value] == cats[i].name.value
    decreases |cats|
  {
    var init := cats[..|cats| - 1];
    if i < |init| {
      assert init[i] == cats[i];
      forall j | i < j < |init| ensures init[j].id != init[i].id {
        assert init[j] == cats[j];
      }
      CategoryNameAt(init, i);
      assert cats[|cats| - 1].id != cats[i].id;
    }
  }

  predicate DistinctKeys(keys: seq<string>) {
    forall a, b :: 0 <= a < b < |keys| ==> keys[a] != keys[b]
  }

  /** `keys` lists exactly the labels that occur in `es`. */
  ghost predicate KeysCover(keys: seq<string>, es: seq<(string, string)>) {
    forall k :: k in keys <==> exists i :: 0 <= i < |es| && es[i].0 == k
  }

  /** Each key occurs in `es` before any occurrence of a later key. */
  ghost predicate FirstAppearanceOrder(keys: seq<string>, es: seq<(string, string)>) {
    forall a, b :: 0 <= a < b < |keys| ==>
      exists i :: 0 <= i < |es| && es[i].0 == keys[a] && forall j :: 0 <= j <= i ==> es[j].0 != keys[b]
  }

  /** The titles filed under `key`, in order. */
  function TitlesUnder(es: seq<(string, string)>, key: string): seq<string>
    decreases |es|
  {
    if |es| == 0 then []
    else TitlesUnder(es[..|es| - 1], key) + (if es[|es| - 1].0 == key then [es[|es| - 1].1] else [])
  }

  lemma {:induction false} TitlesUnderAbsent(es: seq<(string, string)>, key: string)
    requires forall i :: 0 <= i < |es| ==> es[i].0 != key
    ensures TitlesUnder(es, key) == []
    decreases |es|
  {
    if |es| > 0 {
      TitlesUnderAbsent(es[..|es| - 1], key);
    }
  }

  /** The dict's keys: each label that occurs, once, and nothing else. */
  lemma {:induction false} GroupEntriesKeys(es: seq<(string, string)>)
    ensures DistinctKeys(GroupEntries(es).keys)
    ensures KeysCover(GroupEntries(es).keys, es)
    ensures forall k :: k in GroupEntries(es).titles <==> k in GroupEntries(es).keys
    decreases |es|
  {
    if |es| > 0 {
      var init := es[..|es| - 1];
      var e := es[|es| - 1];
      GroupEntriesKeys(init);
      var g := GroupEntries(es);
      forall k ensures k in g.keys <==> exists i :: 0 <= i < |es| && es[i].0 == k {
        if k in g.keys && k != e.0 {
          var i :| 0 <= i < |init| && init[i].0 == k;
          assert es[i].0 == k;
        }
        if exists i :: 0 <= i < |es| && es[i].0 == k {
          var i :| 0 <= i < |es| && es[i].0 == k;
          if i < |init| {
            assert init[i].0 == k;
          }
        }
      }
    }
  }

  /** The keys come in the order their labels first appear. */
  lemma {:induction false} GroupEntriesOrder(es: seq<(string, string)>)
    ensures FirstAppearanceOrder(GroupEntries(es).keys, es)
    decreases |es|
  {
    if |es| > 0 {
      var init := es[..|es| - 1];
      GroupEntriesOrder(init);
      GroupEntriesKeys(init);
      var g0 := GroupEntries(init);
      var g := GroupEntries(es);
      forall a, b | 0 <= a < b < |g.keys|
        ensures exists i :: 0 <= i < |es| && es[i].0 == g.keys[a] && forall j :: 0 <= j <= i ==> es[j].0 != g.keys[b]
      {
        assert g.keys[a] == g0.keys[a];
        if b < |g0.keys| {
          assert g.keys[b] == g0.keys[b];
          var i :| 0 <= i < |init| && init[i].0 == g0.keys[a] && forall j :: 0 <= j <= i ==> init[j].0 != g0.keys[b];
          assert es[i].0 == g.keys[a];
          forall j | 0 <= j <= i ensures es[j].0 != g.keys[b] {
            assert es[j] == init[j];
          }
        } else {
          var e := es[|es| - 1];
          assert g.keys == g0.keys + [e.0] && e.0 !in g0.keys;
          assert g.keys[b] == e.0;
          assert g.keys[a] in g0.keys;
          var i :| 0 <= i < |init| && init[i].0 == g.keys[a];
          assert es[i].0 == g.keys[a];
          forall j | 0 <= j <= i ensures es[j].0 != g.keys[b] {
            assert es[j] == init[j];
            assert init[j].0 in g0.keys;
          }
        }
      }
    }
  }

  /** Each key holds exactly the titles filed under it, in order. */
  lemma {:induction false} GroupEntriesTitles(es: seq<(string, string)>)
    ensures forall k :: k in GroupEntries(es).titles ==> GroupEntries(es).titles[k] == TitlesUnder(es, k)
    decreases |es|
  {
    if |es| > 0 {
      var init := es[..|es| - 1];
      var e := es[|es| - 1];
      GroupEntriesTitles(init);
      GroupEntriesKeys(init);
      var g0 := GroupEntries(init);
      if e.0 !in g0.titles {
        assert e.0 !in g0.keys;
        TitlesUnderAbsent(init, e.0);
      }
    }
  }

  function SumSizes(keys: seq<string>, titles: map<string, seq<string>>): nat
    requires forall k :: k in keys ==> k in titles
    decreases |keys|
  {
    if |keys| == 0 then 0 else SumSizes(keys[..|keys| - 1], titles) + |titles[keys[|keys| - 1]]|
  }

  lemma {:induction false} SumSizesUnaffected(keys: seq<string>, titles: map<string, seq<string>>, k: string, v: seq<string>)
    requires forall x :: x in keys ==> x in titles
    requires k !in keys
    ensures SumSizes(keys, titles[k := v]) == SumSizes(keys, titles)
    decreases |keys|
  {
    if |keys| > 0 {
      SumSizesUnaffected(keys[..|keys| - 1], titles, k, v);
    }
  }

  lemma {:induction false} SumSizesBump(keys: seq<string>, titles: map<string, seq<string>>, k: string, t: string)
    requires forall x :: x in keys ==> x in titles
    requires forall a, b :: 0 <= a < b < |keys| ==> keys[a] != keys[b]
    requires k in keys
    ensures SumSizes(keys, titles[k := titles[k] + [t]]) == SumSizes(keys, titles) + 1
    decreases |keys|
  {
    var init := keys[..|keys| - 1];
    if keys[|keys| - 1] == k {
      SumSizesUnaffected(init, titles, k, titles[k] + [t]);
    } else {
      SumSizesBump(init, titles, k, t);
    }
  }

  /** Every pair lands in exactly one group: the group sizes add up to the number of
      pairs. */
  lemma {:induction false} GroupSizesAddUp(es: seq<(string, string)>)
    ensures forall k :: k in GroupEntries(es).keys ==> k in GroupEntries(es).titles
    ensures SumSizes(GroupEntries(es).keys, GroupEntries(es).titles) == |es|
    decreases |es|
  {
    if |es| > 0 {
      var init := es[..|es| - 1];
      var e := es[|es| - 1];
      GroupSizesAddUp(init);
      GroupEntriesKeys(init);
      var g0 := GroupEntries(init);
      if e.0 in g0.titles {
        SumSizesBump(g0.keys, g0.titles, e.0, e.1);
      } else {
        SumSizesUnaffected(g0.keys, g0.titles, e.0, [e.1]);
        assert (g0.keys + [e.0])[..|g0.keys|] == g0.keys;
      }
    }
  }

  function CategoryCount(posts: seq<PostRecord>): nat
    decreases |posts|
  {
    if |posts| == 0 then 0
    else
      var p := posts[|posts| - 1];
      CategoryCount(posts[..|posts| - 1]) + (if p.categories.Present? then |p.categories.value| else 0)
  }

  /** Grouping fails exactly when some post has a `null` category list or a non-object
      title with at least one category; otherwise it files one title per category id of
      each post. A post without `categories` files nothing; a post without a title files
      `''` under each of its categories. */
  lemma {:induction false} EntriesOutcome(posts: seq<PostRecord>, names: map<int, string>)
    ensures Entries(posts, names).Failure? <==> exists i :: 0 <= i < |posts| && PostEntries(posts[i], names).Failure?
    ensures forall i :: 0 <= i < |posts| && posts[i].categories.Absent? ==> PostEntries(posts[i], names) == Success([])
    ensures forall i :: 0 <= i < |posts| && posts[i].categories.Present? && posts[i].title == NoTitle ==>
      PostEntries(posts[i], names) == Success(Labelled(posts[i].categories.value, names, ""))
    ensures Entries(posts, names).Success? ==> |Entries(posts, names).value| == CategoryCount(posts)
    decreases |posts|
  {
    if |posts| > 0 {
      var init := posts[..|posts| - 1];
      EntriesOutcome(init, names);
      forall i | 0 <= i < |init| ensures init[i] == posts[i] { }
      if exists i :: 0 <= i < |posts| && PostEntries(posts[i], names).Failure? {
        var i :| 0 <= i < |posts| && PostEntries(posts[i], names).Failure?;
        if i < |init| {
          assert PostEntries(init[i], names).Failure?;
        }
      }
    }
  }

  // ---------------------------------------------------------------------------
  // The orders of the two category sections (Report.py:119, Report.py:148)

  /** `ppc.items()`: the (label, titles) pairs in key order. */
  function Items(g: Groups): (r: seq<(string, seq<string>)>)
    requires forall k :: k in g.keys ==> k in g.titles
    ensures |r| == |g.keys|
    ensures forall i :: 0 <= i < |g.keys| ==> r[i] == (g.keys[i], g.titles[g.keys[i]])
  {
    seq(|g.keys|, i requires 0 <= i < |g.keys| => (g.keys[i], g.titles[g.keys[i]]))
  }

  /** `key=lambda x: len(x[1]), reverse=True`: larger groups first. */
  function BySizeDesc(a: (string, seq<string>), b: (string, seq<string>)): bool {
    |a.1| >= |b.1|
  }

  /** Plain tuple order, decided by the label since labels are distinct. */
  function ByLabel(a: (string, seq<string>), b: (string, seq<string>)): bool {
    LexLe(a.0, b.0)
  }

  /** The "POSTS PER CATEGORY" section: `sorted(ppc.items(), key=len(titles), reverse=True)`. */
  function SizeOrder(g: Groups): seq<(string, seq<string>)>
    requires forall k :: k in g.keys ==> k in g.titles
  {
    SortBy(Items(g), BySizeDesc)
  }

  /** The "POSTS BY CATEGORY" section: `sorted(ppc.items())`. */
  function LabelOrder(g: Groups): seq<(string, seq<string>)>
    requires forall k :: k in g.keys ==> k in g.titles
  {
    SortBy(Items(g), ByLabel)
  }

  lemma BySizeDescIsTotalPreorder()
    ensures TotalPreorder(BySizeDesc)
  {
  }

  lemma ByLabelIsTotalPreorder()
    ensures TotalPreorder(ByLabel)
  {
    forall a: (string, seq<string>), b: (string, seq<string>) ensures ByLabel(a, b) || ByLabel(b, a) {
      LexLeTotal(a.0, b.0);
    }
    forall a: (string, seq<string>), b: (string, seq<string>), c: (string, seq<string>)
      | ByLabel(a, b) && ByLabel(b, c) ensures ByLabel(a, c)
    {
      LexLeTransitive(a.0, b.0, c.0);
    }
  }

  /** The size section lists every category once, larger groups first, and groups of
      equal size in the order their labels first appeared. */
  lemma SizeOrderCorrect(g: Groups)
    requires forall k :: k in g.keys ==> k in g.titles
    ensures forall i, j :: 0 <= i < j < |SizeOrder(g)| ==> |SizeOrder(g)[i].1| >= |SizeOrder(g)[j].1|
    ensures multiset(SizeOrder(g)) == multiset(Items(g))
    ensures forall p :: EquivalentTo(SizeOrder(g), p, BySizeDesc) == EquivalentTo(Items(g), p, BySizeDesc)
  {
    BySizeDescIsTotalPreorder();
    SortByCorrect(Items(g), BySizeDesc);
  }

  /** The label section lists every category once, in strictly increasing label order. */
  lemma LabelOrderCorrect(g: Groups)
    requires forall k :: k in g.keys ==> k in g.titles
    requires DistinctKeys(g.keys)
    ensures multiset(LabelOrder(g)) == multiset(Items(g))
    ensures forall i, j :: 0 <= i < j < |LabelOrder(g)| ==>
      LexLe(LabelOrder(g)[i].0, LabelOrder(g)[j].0) && LabelOrder(g)[i].0 != LabelOrder(g)[j].0
  {
    ByLabelIsTotalPreorder();
    SortByCorrect(Items(g), ByLabel);
    var r := LabelOrder(g);
    forall i, j | 0 <= i < j < |r| ensures r[i].0 != r[j].0 {
      DistinctLabelsStayDistinct(Items(g), r, i, j);
    }
  }

  /** A permutation of items with distinct labels has distinct labels. */
  lemma DistinctLabelsStayDistinct(items: seq<(string, seq<string>)>, r: seq<(string, seq<string>)>, i: nat, j: nat)
    requires forall a, b :: 0 <= a < b < |items| ==> items[a].0 != items[b].0
    requires multiset(r) == multiset(items)
    requires i < j < |r|
    ensures r[i].0 != r[j].0
  {
    if r[i].0 == r[j].0 {
      assert r[i] in multiset(items) && r[j] in multiset(items);
      var a :| 0 <= a < |items| && items[a] == r[i];
      var b :| 0 <= b < |items| && items[b] == r[j];
      assert a == b;
      TwiceInMultiset(r, i, j);
      OnceInMultiset(items, a);
      assert false;
    }
  }

  /** An element found at two positions is counted twice. */
  lemma TwiceInMultiset<T>(s: seq<T>, i: nat, j: nat)
    requires i < j < |s| && s[i] == s[j]
    ensures multiset(s)[s[i]] >= 2
  {
    assert s == s[..j] + s[j..];
    assert s[i] in s[..j];
    assert s[j] == s[j..][0];
  }

  /** In a sequence whose elements are pairwise distinct, each element counts once. */
  lemma {:induction false} OnceInMultiset(items: seq<(string, seq<string>)>, a: nat)
    requires a < |items|
    requires forall x, y :: 0 <= x < y < |items| ==> items[x].0 != items[y].0
    ensures multiset(items)[items[a]] == 1
    decreases |items|
  {
    var last := |items| - 1;
    assert items == items[..last] + [items[last]];
    if a == last {
      assert items[a] !in items[..last];
    } else {
      OnceInMultiset(items[..last], a);
      assert items[last] != items[a];
    }
  }

  // ---------------------------------------------------------------------------
  // Users with their post counts (Report.py:183-197)

  datatype User = User(id: Option<int>, name: Field<string>, username: Field<string>)

  /** `user.get('name', user.get('username', 'Unknown'))`, as printed: a `null` prints
      as "None". */
  function DisplayName(u: User): string {
    match u.name
    case Present(s) => s
    case Null => "None"
    case Absent =>
      match u.username
      case Present(s) => s
      case Null => "None"
      case Absent => "Unknown"
  }

  /** The number of posts whose `author` is `a` (a missing author counts as `None`). */
  function CountBy(posts: seq<PostRecord>, a: Option<int>): nat
    decreases |posts|
  {
    if |posts| == 0 then 0
    else CountBy(posts[..|posts| - 1], a) + (if posts[|posts| - 1].author == a then 1 else 0)
  }

  /** `users_with_count` before sorting: one row per user, in input order. */
  function UserRows(posts: seq<PostRecord>, users: seq<User>): (r: seq<(string, nat)>)
    ensures |r| == |users|
    ensures forall i :: 0 <= i < |users| ==> r[i] == (DisplayName(users[i]), CountBy(posts, users[i].id))
  {
    seq(|users|, i requires 0 <= i < |users| => (DisplayName(users[i]), CountBy(posts, users[i].id)))
  }

  /** `key=lambda x: x[1], reverse=True`: more posts first. */
  function ByCountDesc(a: (string, nat), b: (string, nat)): bool {
    a.1 >= b.1
  }

  /** The count loop, the row loop and the stable sort of Report.py:183-197. */
  method UsersWithCount(posts: seq<PostRecord>, users: seq<User>) returns (rows: seq<(string, nat)>)
    ensures rows == SortBy(UserRows(posts, users), ByCountDesc)
  {
    var userPostCount: map<Option<int>, nat> := map[];
    for i := 0 to |posts|
      invariant forall a :: a in userPostCount ==> userPostCount[a] == CountBy(posts[..i], a)
      invariant forall a :: a !in userPostCount ==> CountBy(posts[..i], a) == 0
    {
      assert posts[..i + 1][..i] == posts[..i];
      var authorId := posts[i].author;
      userPostCount := userPostCount[authorId := (if authorId in userPostCount then userPostCount[authorId] else 0) + 1];
    }
    assert posts[..|posts|] == posts;
    var usersWithCount: seq<(string, nat)> := [];
    for i := 0 to |users|
      invariant |usersWithCount| == i
      invariant forall k :: 0 <= k < i ==> usersWithCount[k] == (DisplayName(users[k]), CountBy(posts, users[k].id))
    {
      var userId := users[i].id;
      var name := DisplayName(users[i]);
      var postCount := if userId in userPostCount then userPostCount[userId] else 0;
      usersWithCount := usersWithCount + [(name, postCount)];
    }
    assert usersWithCount == UserRows(posts, users);
    rows := SortBy(usersWithCount, ByCountDesc);
  }

  lemma ByCountDescIsTotalPreorder()
    ensures TotalPreorder(ByCountDesc)
  {
  }

  /** The user section lists every user once with their count, higher counts first,
      users with equal counts in input order. */
  lemma UsersOrderedByCount(posts: seq<PostRecord>, users: seq<User>)
    ensures |SortBy(UserRows(posts, users), ByCountDesc)| == |users|
    ensures forall i, j :: 0 <= i < j < |SortBy(UserRows(posts, users), ByCountDesc)| ==>
      SortBy(UserRows(posts, users), ByCountDesc)[i].1 >= SortBy(UserRows(posts, users), ByCountDesc)[j].1
    ensures multiset(SortBy(UserRows(posts, users), ByCountDesc)) == multiset(UserRows(posts, users))
    ensures forall p :: (EquivalentTo(SortBy(UserRows(posts, users), ByCountDesc), p, ByCountDesc)
      == EquivalentTo(UserRows(posts, users), p, ByCountDesc))
  {
    ByCountDescIsTotalPreorder();
    SortByCorrect(UserRows(posts, users), ByCountDesc);
    SortByLength(UserRows(posts, users), ByCountDesc);
  }

  /** A user's count is the number of posts that name them as author. */
  lemma {:induction false} CountByIsCardinality(posts: seq<PostRecord>, a: Option<int>)
    ensures CountBy(posts, a) == |set k | 0 <= k < |posts| && posts[k].author == a|
    decreases |posts|
  {
    var n := |posts|;
    if n > 0 {
      var init := posts[..n - 1];
      CountByIsCardinality(init, a);
      var before := set k | 0 <= k < n - 1 && init[k].author == a;
      var all := set k | 0 <= k < n && posts[k].author == a;
      if posts[n - 1].author == a {
        assert all == before + {n - 1};
      } else {
        assert all == before;
      }
    }
  }

  /** A user's count is zero exactly when no post names them as author; a user without
      an id is credited with the posts that have no author. */
  lemma {:induction false} CountByZero(posts: seq<PostRecord>, a: Option<int>)
    ensures CountBy(posts, a) == 0 <==> forall i :: 0 <= i < |posts| ==> posts[i].author != a
    ensures CountBy(posts, a) <= |posts|
    decreases |posts|
  {
    if |posts| > 0 {
      var init := posts[..|posts| - 1];
      CountByZero(init, a);
      forall i | 0 <= i < |init| ensures init[i] == posts[i] { }
    }
  }
}
