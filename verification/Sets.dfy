// Elements of finite sets.
module Sets {
  ghost function Pick<T>(s: set<T>): (a: T)
    requires s != {}
    ensures a in s
  {
    var a :| a in s;
    a
  }

  ghost function Top(s: set<int>): (t: nat)
    ensures forall a | a in s :: a <= t
  {
    if s == {} then 0 else
      var a := Pick(s);
      var t := Top(s - {a});
      assert forall b | b in s && b != a :: b in s - {a};
      if a > t then a else t
  }
}
