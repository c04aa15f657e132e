/** The product's images and the two lists the page derives from them: the
    product's images ordered by `order`, and the variant's images picked out
    of that list. */
module Images {
  import opened Sequences

  /** One node of `product.images.edges`. */
  datatype Image = Image(id: string, url: string, alt: string, order: int)

  /** The comparator handed to `sort`: 1 when `a` belongs after `b`, -1
      otherwise. It never answers 0, so of two images with the same `order`
      it claims each belongs before the other. */
  function CompareByOrder(a: Image, b: Image): int
  {
    if a.order > b.order then 1 else -1
  }

  /** Non-decreasing by `order`: no image has a larger `order` than the one
      after it. */
  ghost predicate SortedByOrder(s: seq<Image>)
  {
    forall i :: 0 < i < |s| ==> s[i - 1].order <= s[i].order
  }

  /** How many images of `s` carry `id`. */
  function IdCount(s: seq<Image>, id: string): nat
  {
    if |s| == 0 then 0 else (if s[0].id == id then 1 else 0) + IdCount(s[1..], id)
  }

  /** No id is carried by two images of `s`. */
  ghost predicate UniqueIds(s: seq<Image>)
  {
    forall id :: IdCount(s, id) <= 1
  }

  lemma {:induction false} AbsentId(s: seq<Image>, id: string)
    requires IdCount(s, id) == 0
    ensures forall x :: x in s ==> x.id != id
  {
    if |s| > 0 {
      AbsentId(s[1..], id);
      assert s == [s[0]] + s[1..];
    }
  }

  /** A sorted list is ordered between any two positions, not only between
      neighbours. */
  lemma {:induction false} SortedPairwise(s: seq<Image>, i: int, j: int)
    requires SortedByOrder(s) && 0 <= i <= j < |s|
    ensures s[i].order <= s[j].order
    decreases j - i
  {
    if i < j {
      SortedPairwise(s, i, j - 1);
    }
  }

  lemma FirstIsLeast(s: seq<Image>, x: Image)
    requires SortedByOrder(s) && x in s
    ensures s[0].order <= x.order
  {
    var k :| 0 <= k < |s| && s[k] == x;
    SortedPairwise(s, 0, k);
  }

  /** Prepending an image no later than the head keeps a list sorted. */
  lemma ConsKeepsSorted(x: Image, t: seq<Image>)
    requires SortedByOrder(t)
    requires |t| > 0 ==> x.order <= t[0].order
    ensures SortedByOrder([x] + t)
  {
    var r := [x] + t;
    forall i | 1 < i < |r| ensures r[i - 1].order <= r[i].order {
      assert r[i - 1] == t[i - 2] && r[i] == t[i - 1];
    }
  }

  /** Places `x` before the first image the comparator does not put it
      after. */
  function Insert(x: Image, s: seq<Image>): (r: seq<Image>)
    ensures multiset(r) == multiset(s) + multiset{x}
    ensures |r| == |s| + 1
    ensures r[0] == x || (|s| > 0 && r[0] == s[0])
  {
    if |s| == 0 then [x]
    else if CompareByOrder(x, s[0]) > 0 then
      assert s == [s[0]] + s[1..];
      [s[0]] + Insert(x, s[1..])
    else [x] + s
  }

  lemma {:induction false} InsertKeepsSorted(x: Image, s: seq<Image>)
    requires SortedByOrder(s)
    ensures SortedByOrder(Insert(x, s))
  {
    if |s| > 0 && CompareByOrder(x, s[0]) > 0 {
      var t := Insert(x, s[1..]);
      assert SortedByOrder(s[1..]);
      InsertKeepsSorted(x, s[1..]);
      ConsKeepsSorted(s[0], t);
    }
  }

  /** Inserting adds exactly the inserted image's id. */
  lemma {:induction false} InsertIds(x: Image, s: seq<Image>, id: string)
    ensures IdCount(Insert(x, s), id) == IdCount(s, id) + (if x.id == id then 1 else 0)
  {
    if |s| > 0 && CompareByOrder(x, s[0]) > 0 {
      InsertIds(x, s[1..], id);
      assert ([s[0]] + Insert(x, s[1..]))[1..] == Insert(x, s[1..]);
    } else if |s| > 0 {
      assert ([x] + s)[1..] == s;
    }
  }

  /** `Array.prototype.sort` under `CompareByOrder`. The engine chooses the
      relative order of images with equal `order`; this model keeps their
      input order. SortedPermutationsAgree shows that the choice cannot show
      in the sequence of `order` values, but which of two tied images comes
      first, and with it every claim below about positions of images rather
      than of `order` values, holds for this choice only. */
  function Sort(s: seq<Image>): (r: seq<Image>)
    ensures multiset(r) == multiset(s)
    ensures |r| == |s|
  {
    if |s| == 0 then []
    else
      assert s == [s[0]] + s[1..];
      Insert(s[0], Sort(s[1..]))
  }

  /** The sorted list is ordered by `order`. */
  lemma {:induction false} SortIsSorted(s: seq<Image>)
    ensures SortedByOrder(Sort(s))
  {
    if |s| > 0 {
      SortIsSorted(s[1..]);
      InsertKeepsSorted(s[0], Sort(s[1..]));
    }
  }

  /** Sorting moves ids around without adding or losing any. */
  lemma {:induction false} SortKeepsIds(s: seq<Image>, id: string)
    ensures IdCount(Sort(s), id) == IdCount(s, id)
  {
    if |s| > 0 {
      SortKeepsIds(s[1..], id);
      InsertIds(s[0], Sort(s[1..]), id);
    }
  }

  /** Sorting an already sorted list changes nothing. */
  lemma {:induction false} SortIdentityOnSorted(s: seq<Image>)
    requires SortedByOrder(s)
    ensures Sort(s) == s
  {
    if |s| > 0 {
      assert SortedByOrder(s[1..]);
      SortIdentityOnSorted(s[1..]);
      assert s == [s[0]] + s[1..];
    }
  }

  /** `s` without its element at index `k`. */
  function RemoveAt(s: seq<Image>, k: nat): (r: seq<Image>)
    requires k < |s|
    ensures |r| == |s| - 1
    ensures forall i :: 0 <= i < k ==> r[i] == s[i]
    ensures forall i :: k <= i < |r| ==> r[i] == s[i + 1]
    ensures multiset(r) == multiset(s) - multiset{s[k]}
  {
    assert s == s[..k] + [s[k]] + s[k + 1..];
    s[..k] + s[k + 1..]
  }

  lemma RemoveAtKeepsSorted(s: seq<Image>, k: nat)
    requires k < |s| && SortedByOrder(s)
    ensures SortedByOrder(RemoveAt(s, k))
  {
    if 0 < k < |s| - 1 {
      SortedPairwise(s, k - 1, k + 1);
    }
  }

  /** In a sorted permutation of sorted `s`, every image up to the copy of
      `s[0]` has the least `order`. */
  lemma TiedPrefix(r: seq<Image>, s: seq<Image>, k: nat)
    requires multiset(r) == multiset(s)
    requires SortedByOrder(r) && SortedByOrder(s)
    requires k < |r| && r[k] == s[0]
    ensures forall i :: 0 <= i <= k ==> r[i].order == s[0].order
  {
    forall i | 0 <= i <= k ensures r[i].order == s[0].order {
      assert r[i] in multiset(s) by {
        assert r[i] in multiset(r);
      }
      FirstIsLeast(s, r[i]);
      SortedPairwise(r, i, k);
    }
  }

  /** Reassembles the agreement of `r` and `s` from that of `r` without
      its image `k` and `s` without its head. */
  lemma AgreeAfterRemoval(r: seq<Image>, s: seq<Image>, k: nat)
    requires 0 < |r| == |s| && k < |r|
    requires forall i :: 0 <= i <= k ==> r[i].order == s[0].order
    requires forall i :: 0 <= i < |r| - 1 ==> RemoveAt(r, k)[i].order == s[i + 1].order
    ensures forall i :: 0 <= i < |r| ==> r[i].order == s[i].order
  {
    var rest := RemoveAt(r, k);
    forall i | 0 < i < |r| ensures r[i].order == s[i].order {
      assert rest[i - 1].order == s[i].order;
      if i <= k {
        assert rest[i - 1] == r[i - 1];
      } else {
        assert rest[i - 1] == r[i];
      }
    }
  }

  /** Where the head of `s` sits in its permutation `r`, and what is left of
      both once it is taken out. */
  lemma SplitAtHead(r: seq<Image>, s: seq<Image>) returns (k: nat)
    requires multiset(r) == multiset(s) && |s| > 0
    requires SortedByOrder(r) && SortedByOrder(s)
    ensures k < |r| && r[k] == s[0]
    ensures multiset(RemoveAt(r, k)) == multiset(s[1..])
    ensures SortedByOrder(RemoveAt(r, k)) && SortedByOrder(s[1..])
  {
    assert s[0] in multiset(r);
    k :| 0 <= k < |r| && r[k] == s[0];
    assert s == [s[0]] + s[1..];
    RemoveAtKeepsSorted(r, k);
  }

  /** Whatever order an engine gives to ties, any two sorted permutations of
      the same images carry the same `order` at every position. */
  lemma {:induction false} SortedPermutationsAgree(r: seq<Image>, s: seq<Image>)
    requires multiset(r) == multiset(s)
    requires SortedByOrder(r) && SortedByOrder(s)
    ensures |r| == |s|
    ensures forall i :: 0 <= i < |r| ==> r[i].order == s[i].order
    decreases |r|
  {
    assert |r| == |multiset(r)| == |multiset(s)| == |s|;
    if |s| > 0 {
      var k := SplitAtHead(r, s);
      SortedPermutationsAgree(RemoveAt(r, k), s[1..]);
      TiedPrefix(r, s, k);
      AgreeAfterRemoval(r, s, k);
    }
  }

  /** The images whose id occurs somewhere in `ids`, in their input order. */
  function KeepSelected(images: seq<Image>, ids: seq<string>): (r: seq<Image>)
    ensures |r| <= |images|
    ensures forall x :: x in r <==> x in images && x.id in ids
  {
    if |images| == 0 then []
    else
      assert images == [images[0]] + images[1..];
      if IndexOf(ids, images[0].id) != -1 then [images[0]] + KeepSelected(images[1..], ids)
      else KeepSelected(images[1..], ids)
  }

  /** The filter only deletes: what it keeps stays in the input's order. */
  lemma {:induction false} KeepSelectedIsSubsequence(images: seq<Image>, ids: seq<string>)
    ensures IsSubsequence(KeepSelected(images, ids), images)
  {
    if |images| > 0 {
      KeepSelectedIsSubsequence(images[1..], ids);
      var rest := KeepSelected(images[1..], ids);
      if IndexOf(ids, images[0].id) != -1 {
        assert ([images[0]] + rest)[1..] == rest;
      }
    }
  }

  lemma {:induction false} KeepSelectedKeepsSorted(images: seq<Image>, ids: seq<string>)
    requires SortedByOrder(images)
    ensures SortedByOrder(KeepSelected(images, ids))
  {
    if |images| > 0 {
      assert SortedByOrder(images[1..]);
      KeepSelectedKeepsSorted(images[1..], ids);
      var rest := KeepSelected(images[1..], ids);
      if IndexOf(ids, images[0].id) != -1 && |rest| > 0 {
        assert rest[0] in images by {
          assert rest[0] in images[1..];
        }
        FirstIsLeast(images, rest[0]);
      }
      if IndexOf(ids, images[0].id) != -1 {
        ConsKeepsSorted(images[0], rest);
      }
    }
  }

  lemma {:induction false} KeepSelectedIds(images: seq<Image>, ids: seq<string>, id: string)
    ensures IdCount(KeepSelected(images, ids), id) <= IdCount(images, id)
  {
    if |images| > 0 {
      KeepSelectedIds(images[1..], ids, id);
      var rest := KeepSelected(images[1..], ids);
      if IndexOf(ids, images[0].id) != -1 {
        assert ([images[0]] + rest)[1..] == rest;
      }
    }
  }

  /** The variant's images as the page shows them: the product images kept
      when the variant lists their id, sorted once more. */
  function SelectImages(productImages: seq<Image>, variantImages: seq<string>): (r: seq<Image>)
    ensures SortedByOrder(r)
    ensures forall x :: x in r <==> x in productImages && x.id in variantImages
    ensures |r| <= |productImages|
    ensures SortedByOrder(productImages) ==> IsSubsequence(r, productImages)
  {
    var kept := KeepSelected(productImages, variantImages);
    SortIsSorted(kept);
    SecondSortIsNoOp(productImages, variantImages);
    KeepSelectedIsSubsequence(productImages, variantImages);
    var r := Sort(kept);
    assert forall x :: x in r <==> x in kept by {
      forall x ensures x in r <==> x in kept {
        assert x in r <==> x in multiset(r);
        assert x in kept <==> x in multiset(kept);
      }
    }
    r
  }

  /** On sorted product images the filter already yields a sorted list, so
      the second `sort` returns it unchanged. */
  lemma SecondSortIsNoOp(productImages: seq<Image>, variantImages: seq<string>)
    ensures SortedByOrder(productImages) ==>
      Sort(KeepSelected(productImages, variantImages)) == KeepSelected(productImages, variantImages)
  {
    if SortedByOrder(productImages) {
      KeepSelectedKeepsSorted(productImages, variantImages);
      SortIdentityOnSorted(KeepSelected(productImages, variantImages));
    }
  }

  /** The filter keeps every copy of a selected image and none of the
      others. */
  lemma {:induction false} KeepSelectedCount(images: seq<Image>, ids: seq<string>, x: Image)
    ensures multiset(KeepSelected(images, ids))[x] == if x.id in ids then multiset(images)[x] else 0
  {
    if |images| > 0 {
      KeepSelectedCount(images[1..], ids, x);
      assert images == [images[0]] + images[1..];
    }
  }

  /** Filtering two permutations of the same images keeps the same images. */
  lemma KeepSelectedOfPermutation(a: seq<Image>, b: seq<Image>, ids: seq<string>)
    requires multiset(a) == multiset(b)
    ensures multiset(KeepSelected(a, ids)) == multiset(KeepSelected(b, ids))
  {
    forall x ensures multiset(KeepSelected(a, ids))[x] == multiset(KeepSelected(b, ids))[x] {
      KeepSelectedCount(a, ids, x);
      KeepSelectedCount(b, ids, x);
    }
  }

  /** Whatever order the engine gives to images of equal `order`, in either
      sort: when `p` is any sorted permutation of `nodes` and `q` any sorted
      permutation of the images `p` keeps, `q` holds exactly the selected
      images and has the same `order` at every position as the model's
      selection. */
  lemma AnyTieOrderShowsSameOrders(nodes: seq<Image>, ids: seq<string>, p: seq<Image>, q: seq<Image>)
    requires SortedByOrder(p) && multiset(p) == multiset(nodes)
    requires SortedByOrder(q) && multiset(q) == multiset(KeepSelected(p, ids))
    ensures forall x :: x in q <==> x in nodes && x.id in ids
    ensures |q| == |SelectImages(Sort(nodes), ids)|
    ensures forall i :: 0 <= i < |q| ==> q[i].order == SelectImages(Sort(nodes), ids)[i].order
  {
    var r := SelectImages(Sort(nodes), ids);
    KeepSelectedOfPermutation(p, Sort(nodes), ids);
    assert multiset(q) == multiset(r);
    SortedPermutationsAgree(q, r);
    forall x ensures x in q <==> x in nodes && x.id in ids {
      assert x in q <==> x in multiset(q);
      assert x in KeepSelected(p, ids) <==> x in multiset(KeepSelected(p, ids));
      assert x in p <==> x in multiset(p);
      assert x in nodes <==> x in multiset(nodes);
    }
  }

  /** `s` with every occurrence of `x` removed. */
  function Without(s: seq<string>, x: string): (r: seq<string>)
    ensures forall y :: y in r <==> y in s && y != x
    ensures x in s ==> |r| < |s|
    ensures |r| <= |s|
  {
    if |s| == 0 then []
    else
      assert s == [s[0]] + s[1..];
      if s[0] == x then Without(s[1..], x) else [s[0]] + Without(s[1..], x)
  }

  /** Images with pairwise different ids, all listed in `ids`, number at most
      `|ids|`. */
  lemma {:induction false} DistinctIdsBound(r: seq<Image>, ids: seq<string>)
    requires UniqueIds(r)
    requires forall x :: x in r ==> x.id in ids
    ensures |r| <= |ids|
  {
    if |r| > 0 {
      var id0 := r[0].id;
      var ids' := Without(ids, id0);
      assert r == [r[0]] + r[1..];
      forall id ensures IdCount(r[1..], id) <= 1 {
        assert IdCount(r, id) <= 1;
      }
      assert IdCount(r, id0) <= 1;
      AbsentId(r[1..], id0);
      DistinctIdsBound(r[1..], ids');
    }
  }

  /** With no id shared by two product images, the page shows at most as
      many images as the variant lists ids. */
  lemma SelectionBoundedByVariantIds(productImages: seq<Image>, variantImages: seq<string>)
    requires UniqueIds(productImages)
    ensures |SelectImages(productImages, variantImages)| <= |variantImages|
  {
    var kept := KeepSelected(productImages, variantImages);
    var r := SelectImages(productImages, variantImages);
    forall id ensures IdCount(r, id) <= 1 {
      SortKeepsIds(kept, id);
      KeepSelectedIds(productImages, variantImages, id);
      assert IdCount(productImages, id) <= 1;
    }
    DistinctIdsBound(r, variantImages);
  }

  /** Images "a" (order 2) and "b" (order 1), both listed by the variant,
      are shown "b" first. */
  lemma ShownInOrderOfOrder()
    ensures var a := Image("a", "", "", 2);
            var b := Image("b", "", "", 1);
            SelectImages(Sort([a, b]), ["a", "b"]) == [b, a]
  {
  }

  /** An id no product image carries shows nothing. */
  lemma UnknownIdShowsNothing()
    ensures var a := Image("a", "", "", 2);
            var b := Image("b", "", "", 1);
            SelectImages(Sort([a, b]), ["c"]) == []
  {
  }
}
