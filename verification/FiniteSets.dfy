/** Sizes of finite sets of integers. */
module FiniteSets {

  ghost function Below(n: nat): (s: set<int>)
    ensures |s| == n && forall r :: r in s <==> 0 <= r < n
  {
    if n == 0 then {} else Below(n - 1) + {n - 1}
  }

  lemma {:induction false} SubsetSize<T>(a: set<T>, b: set<T>)
    requires a <= b
    ensures |a| <= |b| && (|a| == |b| ==> a == b)
  {
    if b == {} {
    } else {
      var x :| x in b;
      SubsetSize(a - {x}, b - {x});
    }
  }

  ghost function Image(element: seq<int>, n: nat): (s: set<int>)
    requires n <= |element|
    ensures forall l :: l in s <==> exists r :: 0 <= r < n && element[r] == l
  {
    if n == 0 then {} else Image(element, n - 1) + {element[n - 1]}
  }

  lemma ImageUnfolds(element: seq<int>, n: nat)
    requires 0 < n <= |element| && forall r :: 0 <= r < n - 1 ==> element[r] != element[n - 1]
    ensures Image(element, n) == Image(element, n - 1) + {element[n - 1]} && element[n - 1] !in Image(element, n - 1)
  {
  }

  lemma NoImage(element: seq<int>)
    ensures |Image(element, 0)| == 0
  {
  }

  lemma {:induction false} ImageSize(element: seq<int>, n: nat)
    requires n <= |element| && forall r, s :: 0 <= r < s < n ==> element[r] != element[s]
    ensures |Image(element, n)| == n
  {
    hide Image;
    if n == 0 {
      NoImage(element);
    } else {
      ImageSize(element, n - 1);
      ImageUnfolds(element, n);
    }
  }
}
