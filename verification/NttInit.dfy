// The constants of the number theoretic transform of quickjs/libbf.c and ntt_static_init: the state
// the transforms work with is built from five primes, their roots of unity of order 2^51 and the
// inverses used for Chinese remaindering.

module NttInit {
  import opened Limbs
  import opened Bits
  import opened NttArith
  import opened NttDft
  import opened NttFft
  import opened NttConv
  import opened NttGarner
  import opened NttMul

  const NTT_MODS: seq<Limb> := [0x28d8000000000001, 0x2a88000000000001, 0x2ed8000000000001, 0x3508000000000001,
                                0x3aa8000000000001]

  const NTT_PROOT: seq<Limb> := [0x1b8ea61034a2bea7, 0x21a9762de58206fb, 0x2ca782f0756a8ea, 0x278384537a3e50a1,
                                 0x106e13fee74ce0ab]
  const NTT_PROOT_INV: seq<Limb> := [0x233513af133e13b8, 0x1d13140d1c6f75f1, 0x12cde57f97e3eeda, 0xd6149e23cbe654f,
                                     0x36cd204f522a1379]

  const NTT_MODS_CR: seq<Limb> := [
    0x8a9ed097b425eea, 0x18a44aaaaaaaaab3, 0x2493f57f57f57f5d, 0x126b8d0649a7f8d4,
    0x9d80ed7303b5ccc, 0x25b8bcf3cf3cf3d5, 0x2ce6ce63398ce638,
    0xe31fad40a57eb59, 0x2a3529fd4a7f52f,
    0x3a5493e93e93e94a
  ]

  // c squared n times modulo m.
  ghost function Squared(c: int, m: int, n: nat): int
    requires m > 0
    decreases n
  {
    if n == 0 then c else Squared((c * c) % m, m, n - 1)
  }

  lemma {:induction false} SquaredAdd(c: int, m: int, a: nat, b: nat)
    requires m > 0
    ensures Squared(c, m, a + b) == Squared(Squared(c, m, a), m, b)
    decreases a
  {
    if a > 0 {
      SquaredAdd((c * c) % m, m, a - 1, b);
    }
  }

  // c0, c1, ..., c5 are successive squares modulo m.
  lemma FiveSquares(c0: int, m: int, n: nat, c1: int, c2: int, c3: int, c4: int, c5: int)
    requires m > 0 && (c0 * c0) % m == c1 && (c1 * c1) % m == c2 && (c2 * c2) % m == c3 && (c3 * c3) % m == c4 &&
             (c4 * c4) % m == c5
    ensures Squared(c0, m, n + 5) == Squared(c5, m, n)
  {
    assert Squared(c0, m, n + 5) == Squared(c1, m, n + 4);
    assert Squared(c1, m, n + 4) == Squared(c2, m, n + 3);
    assert Squared(c2, m, n + 3) == Squared(c3, m, n + 2);
    assert Squared(c3, m, n + 2) == Squared(c4, m, n + 1);
    assert Squared(c4, m, n + 1) == Squared(c5, m, n);
  }


  // The 2^50-th power of root 0 is -1.
  lemma Root0()
    ensures Squared(0x1b8ea61034a2bea7, 0x28d8000000000001, 50) == 0x28d8000000000001 - 1
  {
    hide Squared;
    FiveSquares(0x1b8ea61034a2bea7, 0x28d8000000000001, 45, 0x11bf2acc9c713d40, 0x117ecd40b8f23ce3, 0x45ca06b7dd55768,
                0x2063daa5f3ab2b8f, 0x1a8676cd7378a4a2);
    FiveSquares(0x1a8676cd7378a4a2, 0x28d8000000000001, 40, 0x78addfbaf5d977, 0x1af47adc2454618d, 0xd47e59d2827ff15,
                0x66b730a50ae367d, 0x27c9981f5b3ed347);
    FiveSquares(0x27c9981f5b3ed347, 0x28d8000000000001, 35, 0x765065a915fa984, 0xb1428bc341579c0, 0x1ee40846a81bd08,
                0xce74593826adfd0, 0x4604dfcc67800f8);
    FiveSquares(0x4604dfcc67800f8, 0x28d8000000000001, 30, 0x250ce92091a519ae, 0x9ad967836a0d03d, 0xf79df39b7a793dd,
                0x1020b13077495562, 0x808861f0e23310c);
    FiveSquares(0x808861f0e23310c, 0x28d8000000000001, 25, 0x1881d30f64dde1b2, 0xba18994b0308683, 0x2bc9718ea5abba3,
                0x1ba0869095d3d799, 0x6d7161052ed33c7);
    FiveSquares(0x6d7161052ed33c7, 0x28d8000000000001, 20, 0x25ee3bd9c046a388, 0x524cb3892ce2ac, 0x21e3892da47bfed1,
                0x1a6a218533869415, 0x1e40f499a11e5c2f);
    FiveSquares(0x1e40f499a11e5c2f, 0x28d8000000000001, 15, 0x1eea26409f9fadd8, 0x29490b7904c808c, 0x381b45240bee56d,
                0xbe930411abbd7ef, 0x1b2cc404c1f00eab);
    FiveSquares(0x1b2cc404c1f00eab, 0x28d8000000000001, 10, 0x1b758c419b9072ed, 0x931dd93b729b453, 0x224524552b855f94,
                0x1020098506d09868, 0x19865c9022733918);
    FiveSquares(0x19865c9022733918, 0x28d8000000000001, 5, 0x1480b64fff3cb853, 0x16070c056f2e8ff4, 0x1620b4151aecbd96,
                0x3420ab6137bbd61, 0x2719ec745b89fb2d);
    FiveSquares(0x2719ec745b89fb2d, 0x28d8000000000001, 0, 0x276d1af9b2668e7b, 0x225c203ea7b1acc0, 0x240936938e1ab821,
                0x22ddbb3c2ad555da, 0x28d8000000000000);
    NoSquares(0x28d8000000000000, 0x28d8000000000001);
  }

  // The 2^50-th power of root 1 is -1.
  lemma Root1()
    ensures Squared(0x21a9762de58206fb, 0x2a88000000000001, 50) == 0x2a88000000000001 - 1
  {
    hide Squared;
    FiveSquares(0x21a9762de58206fb, 0x2a88000000000001, 45, 0xc115151fccaa3b6, 0x1933cae903d6df84, 0x18ced8f84565af47,
                0x10d701bec133727f, 0xf78a7db7410d9f9);
    FiveSquares(0xf78a7db7410d9f9, 0x2a88000000000001, 40, 0x16e656d8509df599, 0x188bef80e2704c11, 0x1c318b73df288f7a,
                0x262a41498b083a7, 0x95660e210288c6a);
    FiveSquares(0x95660e210288c6a, 0x2a88000000000001, 35, 0xd97b8fe678e8d34, 0xa46e05bdca82f31, 0x13f1190692921afa,
                0x110b6c5ed7a45289, 0x29d6f683253995cf);
    FiveSquares(0x29d6f683253995cf, 0x2a88000000000001, 30, 0xfd60a2a200f9c26, 0x2738a11d5cd1c02c, 0x13391b2515ab46f8,
                0x13e82823a00faf4b, 0x2453b59951f862eb);
    FiveSquares(0x2453b59951f862eb, 0x2a88000000000001, 25, 0x20208e091c61e871, 0x19109e9184890ca7, 0x16a696d4620b5233,
                0x112c70cff4f937c8, 0x23cbffd3ac83c407);
    FiveSquares(0x23cbffd3ac83c407, 0x2a88000000000001, 20, 0x28ed6ee4f7941100, 0x1f7efd54d99ae8f3, 0xf9234a42f60ed3d,
                0x16361632299e1269, 0x8dfc85ec8f66421);
    FiveSquares(0x8dfc85ec8f66421, 0x2a88000000000001, 15, 0x162affd6d19e3f6d, 0x1ba70f27ded992c5, 0xc74896769ae521,
                0x78c95dc9fe7d84e, 0x26f15b9d4656e9fe);
    FiveSquares(0x26f15b9d4656e9fe, 0x2a88000000000001, 10, 0x211501d49e89e6db, 0x13d5227e55bcd481, 0x2b4e46443b48209,
                0x9b98236f89da2c7, 0x25b15c692eacff82);
    FiveSquares(0x25b15c692eacff82, 0x2a88000000000001, 5, 0x12fe079fb471ccf6, 0x1c7f25769cdefca6, 0x19458bb7142589e2,
                0x1044bb49e3593fb, 0xa951fcee81e1917);
    FiveSquares(0xa951fcee81e1917, 0x2a88000000000001, 0, 0x10ae703a3f62fd23, 0xbac4480425c3eec, 0x146bd875e06a2fc4,
                0x236e45c7a9102530, 0x2a88000000000000);
    NoSquares(0x2a88000000000000, 0x2a88000000000001);
  }

  // The 2^50-th power of root 2 is -1.
  lemma Root2()
    ensures Squared(0x2ca782f0756a8ea, 0x2ed8000000000001, 50) == 0x2ed8000000000001 - 1
  {
    hide Squared;
    FiveSquares(0x2ca782f0756a8ea, 0x2ed8000000000001, 45, 0x7f8af468fa96c01, 0x2893e1a955313b47, 0x119875c71c305e20,
                0xfea39f4f588e372, 0x3616ec68cc63a53);
    FiveSquares(0x3616ec68cc63a53, 0x2ed8000000000001, 40, 0x1dd280e8ca562289, 0x89b4335356f5ba9, 0x46e97af40d727e,
                0xc73b3b44a90e273, 0x61dfe8ca6992956);
    FiveSquares(0x61dfe8ca6992956, 0x2ed8000000000001, 35, 0x1d3e5bdaac52234d, 0x1575c284b0956e53, 0x15be952d05199cd2,
                0x1847a2dddac12664, 0x962b718917de5a0);
    FiveSquares(0x962b718917de5a0, 0x2ed8000000000001, 30, 0x1d0441ae2fbb4b0e, 0x10bc206b633195d3, 0xd4e22f9033841f,
                0x2ba776ed50d8b268, 0x2783d493568cb20b);
    FiveSquares(0x2783d493568cb20b, 0x2ed8000000000001, 25, 0x292654bbfb073949, 0xb0aea6ed03a0b36, 0x1f4c53ba8b9be4fe,
                0x1186c4d8d6712ea1, 0x2883edd0b24d7431);
    FiveSquares(0x2883edd0b24d7431, 0x2ed8000000000001, 20, 0x133a9d8b542f301b, 0x1345aa59bc4d4ab9, 0x15517f78be3ba004,
                0x167add39f82a332c, 0x126cd52ee5f02406);
    FiveSquares(0x126cd52ee5f02406, 0x2ed8000000000001, 15, 0x2f285446e0e92d, 0x2644ab2c4cd4e358, 0xc2993c49ed39235,
                0x9fc2f6fc81e4e61, 0x185e1567702365d4);
    FiveSquares(0x185e1567702365d4, 0x2ed8000000000001, 10, 0x15c2be1efb484f5a, 0x3173e6d0fed32fb, 0x2c1a707e395ae3bc,
                0x2c985ac26b3d5b61, 0x2956b4b2229d8a8b);
    FiveSquares(0x2956b4b2229d8a8b, 0x2ed8000000000001, 5, 0x2e5f530afca3420d, 0x3d58c348242857b, 0x11120bcfa53759b0,
                0xf680f483975f033, 0x22f1a7a7bbadcd3b);
    FiveSquares(0x22f1a7a7bbadcd3b, 0x2ed8000000000001, 0, 0x1970ef6c9cbcd317, 0x14bc81fbda4489b1, 0x1fbd441fe5e70563,
                0x15ebb0edef885436, 0x2ed8000000000000);
    NoSquares(0x2ed8000000000000, 0x2ed8000000000001);
  }

  // The 2^50-th power of root 3 is -1.
  lemma Root3()
    ensures Squared(0x278384537a3e50a1, 0x3508000000000001, 50) == 0x3508000000000001 - 1
  {
    hide Squared;
    FiveSquares(0x278384537a3e50a1, 0x3508000000000001, 45, 0xd82aa94862db309, 0x17c5b1d8edc947b5, 0x1f0991d2b810c767,
                0x158dad655569cce8, 0x343a21dd03b176d0);
    FiveSquares(0x343a21dd03b176d0, 0x3508000000000001, 40, 0xbd704064191e73e, 0x30d37af324a91bf3, 0x10c457f05ef48610,
                0x336d9c346ad224cd, 0xc5ddfd400bd872);
    FiveSquares(0xc5ddfd400bd872, 0x3508000000000001, 35, 0x1215afd41184f7b4, 0x1dca774d45bb85bb, 0x2590abd47f6f2b7b,
                0x3431c6d1a0e183d2, 0x2ba9d15184e56f91);
    FiveSquares(0x2ba9d15184e56f91, 0x3508000000000001, 30, 0xa077f0e808f55e7, 0x10e4aca6fe02a647, 0x27a6aad24167a986,
                0x2ad8532952214a5d, 0x197defb964696287);
    FiveSquares(0x197defb964696287, 0x3508000000000001, 25, 0xb87fab71e36ea1a, 0x1690822d1f88258f, 0x1e52d2eacbc69b26,
                0xeb3bb6912cb9ea0, 0x77bb40c803c1315);
    FiveSquares(0x77bb40c803c1315, 0x3508000000000001, 20, 0x2013203188e97741, 0x18d07bde7b143666, 0x334456414536a778,
                0x8dc7997ac088ab6, 0x1ac41ca88e35b838);
    FiveSquares(0x1ac41ca88e35b838, 0x3508000000000001, 15, 0x11c342f956abb257, 0x7fc7ef283fe83b4, 0x24e0c3613c97a76a,
                0xf2aad0a6ea1df84, 0x113ef3259d22e0e7);
    FiveSquares(0x113ef3259d22e0e7, 0x3508000000000001, 10, 0x80798a2565138f9, 0x33d53835ce5bc3ad, 0xf532653e3b244ce,
                0xc39b4ae0e71ff75, 0x2484f63c7f3a0060);
    FiveSquares(0x2484f63c7f3a0060, 0x3508000000000001, 5, 0x2d85376e2b036871, 0x2ac7b1f3aa076f6e, 0xc62d8c29ed3e71c,
                0x22b72fb700b997ff, 0x477b150e0cdd0d0);
    FiveSquares(0x477b150e0cdd0d0, 0x3508000000000001, 0, 0x82a9b91aafa024c, 0x1255b0fb439fed7f, 0x12b6abe6c05ea197,
                0x1639a4efab5872e6, 0x3508000000000000);
    NoSquares(0x3508000000000000, 0x3508000000000001);
  }

  // The 2^50-th power of root 4 is -1.
  lemma Root4()
    ensures Squared(0x106e13fee74ce0ab, 0x3aa8000000000001, 50) == 0x3aa8000000000001 - 1
  {
    hide Squared;
    FiveSquares(0x106e13fee74ce0ab, 0x3aa8000000000001, 45, 0x2ab4e3986f2ee22c, 0x99040fca134ac6b, 0x117d12ab5ecb3741,
                0x7d5f7dc1c1f064c, 0x34744e3bc14f85e3);
    FiveSquares(0x34744e3bc14f85e3, 0x3aa8000000000001, 40, 0xfd68f624aa11dbb, 0x18686bf84cb33e74, 0x3530cf4f724d4754,
                0x500c9b305228d71, 0x13ea5d9520df4233);
    FiveSquares(0x13ea5d9520df4233, 0x3aa8000000000001, 35, 0xdf5a5ca37b8046e, 0x396e257658ca538, 0x6e738d90aaf4949,
                0x154a5bd6583090cf, 0x16605fa7ea67abaa);
    FiveSquares(0x16605fa7ea67abaa, 0x3aa8000000000001, 30, 0x29528a36b3b3ad3e, 0xb445908ec80a80, 0x38cd2dec35b1a093,
                0x37a3654336860829, 0x16d4e6036332f01f);
    FiveSquares(0x16d4e6036332f01f, 0x3aa8000000000001, 25, 0x21deac0f1b7c42e3, 0x37d19eb869380dee, 0x35f275215541e0fa,
                0x37a7a16e0d67f70b, 0xa6b48a027ed9cb0);
    FiveSquares(0xa6b48a027ed9cb0, 0x3aa8000000000001, 20, 0x1af75487599c3922, 0x17aee30790b9e2b3, 0x1de18789eb23e9e0,
                0xf54a92367f882db, 0x1e99135084ab55df);
    FiveSquares(0x1e99135084ab55df, 0x3aa8000000000001, 15, 0x2c8dcbb44789fc3d, 0x1bbbb5ff84595c2b, 0x210be1ecd56e9b43,
                0x31cf0e77383bda15, 0x230389d03a9741a9);
    FiveSquares(0x230389d03a9741a9, 0x3aa8000000000001, 10, 0x2c01d728b756e204, 0x1b1a6ae0e8214e50, 0x3a19a8749981d638,
                0x38236c52f5edb34c, 0x2d6d4ea45938d2da);
    FiveSquares(0x2d6d4ea45938d2da, 0x3aa8000000000001, 5, 0x2af11c7b4888771b, 0x2e7b6c570b501118, 0x339a275f79ea4bbd,
                0x376da315b593dc22, 0xb831418ae2216ee);
    FiveSquares(0xb831418ae2216ee, 0x3aa8000000000001, 0, 0x1acd71a3bfdfd8de, 0x226a78b52d57311, 0x341060b345a6187d,
                0x190871e7f52cc53, 0x3aa8000000000000);
    NoSquares(0x3aa8000000000000, 0x3aa8000000000001);
  }

  lemma NoSquares(c: int, m: int)
    requires m > 0
    ensures Squared(c, m, 0) == c
  {
  }

  // ----- Powers of a root -----

  lemma SquaredNext(c: int, m: int, q: nat)
    requires m > 0
    ensures Squared(c, m, q + 1) == (Squared(c, m, q) * Squared(c, m, q)) % m
  {
    SquaredAdd(c, m, q, 1);
    var d := Squared(c, m, q);
    assert Squared(d, m, 1) == Squared((d * d) % m, m, 0);
  }

  lemma {:induction false} SquaredRange(c: int, m: int, q: nat)
    requires 0 <= c < m
    ensures 0 <= Squared(c, m, q) < m
    decreases q
  {
    if q > 0 {
      CongMod(c * c, m);
      SquaredRange((c * c) % m, m, q - 1);
    }
  }

  lemma SquareFits(c: int, m: int)
    requires Modulus(m) && 0 <= c < m
    ensures 0 <= c * c < WIDE
  {
    MulPos(c, c);
    MulMono(c, MOD_MAX, c);
    MulMono(c, MOD_MAX, MOD_MAX);
  }

  lemma ModularProduct(x: int, a: int, m: int)
    requires m > 0 && 0 <= x < m && Cong(x, a, m)
    ensures x == a % m
  {
    hide Cong;
    CongMod(a, m);
    CongSym(a % m, a, m);
    CongTrans(x, a, a % m, m);
    CongUnique(x, a % m, m);
  }

  ghost predicate RootAt(root: Limb, proot: Limb, m: int, k: int) {
    m > 0 && 1 <= k <= NTT_PROOT_2EXP && root < m && root == Squared(proot, m, NTT_PROOT_2EXP - k)
  }

  method SquareRootAt(m: Limb, mInv: Limb, proot: Limb, root: Limb, ghost k: int) returns (next: Limb)
    requires Modulus(m) && mInv == WIDE / m && proot < m && RootAt(root, proot, m, k)
    ensures next < m && (k > 1 ==> RootAt(next, proot, m, k - 1))
  {
    hide Squared;
    hide Cong;
    SquareFits(root, m);
    next := MulModFast(root, root, m, mInv);
    ModularProduct(next, root as int * root, m);
    SquaredNext(proot, m, NTT_PROOT_2EXP - k);
  }

  // The loop that fills ntt_proot_pow: roots[k] is a root of order 2^k.
  method RootPowers(m: Limb, mInv: Limb, proot: Limb) returns (roots: seq<Limb>)
    requires Modulus(m) && mInv == WIDE / m && proot < m
    ensures |roots| == NTT_PROOT_2EXP + 1
    ensures forall k :: 1 <= k <= NTT_PROOT_2EXP ==> RootAt(roots[k], proot, m, k)
  {
    NoSquares(proot, m);
    roots := seq(NTT_PROOT_2EXP + 1, (i: nat) => 0);
    var c := proot;
    assert RootAt(c, proot, m, NTT_PROOT_2EXP);
    hide RootAt;
    var i := 0;
    while i < NTT_PROOT_2EXP
      invariant 0 <= i <= NTT_PROOT_2EXP && |roots| == NTT_PROOT_2EXP + 1
      invariant i < NTT_PROOT_2EXP ==> RootAt(c, proot, m, NTT_PROOT_2EXP - i)
      invariant forall k :: NTT_PROOT_2EXP - i < k <= NTT_PROOT_2EXP ==> RootAt(roots[k], proot, m, k)
    {
      roots := roots[NTT_PROOT_2EXP - i := c];
      c := SquareRootAt(m, mInv, proot, c, NTT_PROOT_2EXP - i);
      i := i + 1;
    }
  }

  lemma RootSquares(a: Limb, b: Limb, proot: Limb, m: int, k: int)
    requires RootAt(a, proot, m, k) && RootAt(b, proot, m, k + 1)
    ensures Cong(a, b as int * b, m)
  {
    hide Squared;
    hide Cong;
    SquaredNext(proot, m, NTT_PROOT_2EXP - (k + 1));
    CongMod(b as int * b, m);
  }

  lemma RootsValid(roots: seq<Limb>, proot: Limb, m: int)
    requires m > 0 && |roots| == NTT_PROOT_2EXP + 1 && Cong(Squared(proot, m, NTT_PROOT_2EXP - 1), -1, m)
    requires forall k :: 1 <= k <= NTT_PROOT_2EXP ==> RootAt(roots[k], proot, m, k)
    ensures ValidRoots(roots, m)
  {
    hide Squared;
    hide Cong;
    assert RootAt(roots[1], proot, m, 1);
    forall k | 1 <= k <= NTT_PROOT_2EXP ensures roots[k] < m {
      assert RootAt(roots[k], proot, m, k);
    }
    hide RootAt;
    forall k | 1 <= k < NTT_PROOT_2EXP ensures SquareOf(roots, k, m) {
      RootSquares(roots[k], roots[k + 1], proot, m, k);
    }
  }

  // Squares of inverses are inverses.
  lemma {:induction false} SquaredInverse(c: int, d: int, m: int, q: nat)
    requires m > 0 && Cong(c * d, 1, m)
    ensures Cong(Squared(c, m, q) * Squared(d, m, q), 1, m)
    decreases q
  {
    if q > 0 {
      hide Cong;
      hide Squared;
      SquaredInverse(c, d, m, q - 1);
      SquaredNext(c, m, q - 1);
      SquaredNext(d, m, q - 1);
      var x, y := Squared(c, m, q - 1), Squared(d, m, q - 1);
      CongMod(x * x, m);
      CongMod(y * y, m);
      CongMul((x * x) % m, x * x, (y * y) % m, y * y, m);
      CongMul(x * y, 1, x * y, 1, m);
      Swap4(x, x, y, y);
      CongTrans(Squared(c, m, q) * Squared(d, m, q), (x * y) * (x * y), 1, m);
    } else {
      NoSquares(c, m);
      NoSquares(d, m);
    }
  }

  // The inverse of -1 is -1.
  lemma InverseOfMinusOne(x: int, y: int, m: int)
    requires m > 0 && Cong(x * y, 1, m) && x == m - 1
    ensures Cong(x, -1, m) && Cong(y, -1, m)
  {
    CongBy(x, -1, m, 1);
    hide Cong;
    CongSelf(y, m);
    CongMul(x, -1, y, y, m);
    CongSym(x * y, -1 * y, m);
    CongTrans(-1 * y, x * y, 1, m);
    CongSelf(-1, m);
    CongMul(-1, -1, -1 * y, 1, m);
  }

  // ----- One modulus -----

  method LenInverses(m: Limb, mInv: Limb) returns (lenInv: seq<Limb>)
    requires Modulus(m) && mInv == WIDE / m && m % 2 == 1
    ensures |lenInv| == NTT_PROOT_2EXP + 1
    ensures forall k: nat :: k <= NTT_PROOT_2EXP ==> lenInv[k] < m && Cong(Pow2(k) * lenInv[k], 1, m)
  {
    hide Pow2;
    var cInv2: Limb := (m + 1) / 2;
    CongBy(2 * cInv2, 1, m, 1);
    var cInv: Limb := 1;
    Pow2Small();
    CongSelf(1, m);
    hide Cong;
    lenInv := [];
    while |lenInv| <= NTT_PROOT_2EXP
      invariant |lenInv| <= NTT_PROOT_2EXP + 1 && cInv < m && Cong(Pow2(|lenInv|) * cInv, 1, m)
      invariant forall k: nat :: k < |lenInv| ==> lenInv[k] < m && Cong(Pow2(k) * lenInv[k], 1, m)
    {
      SmallProduct(cInv, cInv2, m);
      var next := MulModFast(cInv, cInv2, m, mInv);
      HalfAgain(Pow2(|lenInv|), Pow2(|lenInv| + 1), cInv, cInv2, next, m, |lenInv|);
      lenInv := lenInv + [cInv];
      cInv := next;
    }
  }

  lemma SmallProduct(a: int, b: int, m: int)
    requires Modulus(m) && 0 <= a < m && 0 <= b < m
    ensures 0 <= a * b < WIDE
  {
    MulPos(a, b);
    MulMono(a, MOD_MAX, b);
    MulMono(b, MOD_MAX, MOD_MAX);
  }

  lemma HalfAgain(p: int, p': int, c: int, h: int, next: int, m: int, k: nat)
    requires m > 0 && p == Pow2(k) && p' == Pow2(k + 1) && Cong(p * c, 1, m) && Cong(2 * h, 1, m) &&
             Cong(next, c * h, m)
    ensures Cong(p' * next, 1, m)
  {
    assert p' == 2 * p;
    hide Cong;
    hide Pow2;
    CongSelf(p', m);
    CongMul(p', p', next, c * h, m);
    CongMul(p * c, 1, 2 * h, 1, m);
    Swap4(p, c, 2, h);
    assert p' * (c * h) == (p * 2) * (c * h);
    CongTrans(p' * next, p' * (c * h), 1, m);
  }

  // The part of ntt_static_init for one modulus.
  method InitMod(m: Limb, proot: Limb, prootInv: Limb) returns (s: NttMod)
    requires Modulus(m) && m % 2 == 1 && proot < m && prootInv < m
    requires Squared(proot, m, NTT_PROOT_2EXP - 1) == m - 1 && Cong(proot as int * prootInv, 1, m)
    ensures ValidMod(s) && s.m == m
  {
    hide Squared;
    hide Cong;
    hide Pow2;
    var mInv := InitMulModFast(m);
    DivIs(WIDE, m, mInv, WIDE - mInv as int * m);
    var lenInv := LenInverses(m, mInv);
    var roots := RootPowers(m, mInv, proot);
    var invRoots := RootPowers(m, mInv, prootInv);
    s := NttMod(m, mInv, roots, invRoots, lenInv);
    forall k: nat | 1 <= k <= NTT_PROOT_2EXP ensures InverseRoots(s, k) {
      assert RootAt(roots[k], proot, m, k) && RootAt(invRoots[k], prootInv, m, k);
      SquaredInverse(proot, prootInv, m, NTT_PROOT_2EXP - k);
    }
    SquaredInverse(proot, prootInv, m, NTT_PROOT_2EXP - 1);
    InverseOfMinusOne(Squared(proot, m, NTT_PROOT_2EXP - 1), Squared(prootInv, m, NTT_PROOT_2EXP - 1), m);
    RootsValid(roots, proot, m);
    RootsValid(invRoots, prootInv, m);
    forall k: nat | k <= NTT_PROOT_2EXP ensures LenInverse(s, k) {
    }
  }

  // ----- The constants fit together -----

  ghost predicate RootsOk(m: int, proot: int, prootInv: int) {
    && Modulus(m) && m % 2 == 1 && 0 <= proot < m && 0 <= prootInv < m
    && Squared(proot, m, NTT_PROOT_2EXP - 1) == m - 1 && Cong(proot * prootInv, 1, m)
  }

  // The constants of every modulus are roots of unity and inverse to each other.
  lemma ModuliOk(j: nat)
    requires j < NB_MODS
    ensures RootsOk(NTT_MODS[j], NTT_PROOT[j], NTT_PROOT_INV[j])
  {
    if j == 0 {
      ModulusOk0();
    } else if j == 1 {
      ModulusOk1();
    } else if j == 2 {
      ModulusOk2();
    } else if j == 3 {
      ModulusOk3();
    } else {
      ModulusOk4();
    }
    hide RootsOk;
  }

  lemma ModulusOk0()
    ensures RootsOk(0x28d8000000000001, 0x1b8ea61034a2bea7, 0x233513af133e13b8)
  {
    hide Squared;
    Root0();
  }

  lemma ModulusOk1()
    ensures RootsOk(0x2a88000000000001, 0x21a9762de58206fb, 0x1d13140d1c6f75f1)
  {
    hide Squared;
    Root1();
  }

  lemma ModulusOk2()
    ensures RootsOk(0x2ed8000000000001, 0x2ca782f0756a8ea, 0x12cde57f97e3eeda)
  {
    hide Squared;
    Root2();
  }

  lemma ModulusOk3()
    ensures RootsOk(0x3508000000000001, 0x278384537a3e50a1, 0xd6149e23cbe654f)
  {
    hide Squared;
    Root3();
  }

  lemma ModulusOk4()
    ensures RootsOk(0x3aa8000000000001, 0x106e13fee74ce0ab, 0x36cd204f522a1379)
  {
    hide Squared;
    Root4();
  }

  lemma PairBases()
    ensures PairBase(0) == 0 && PairBase(1) == 4 && PairBase(2) == 7 && PairBase(3) == 9 && PairBase(4) == 10
  {
    assert PairBase(1) == PairBase(0) + 4;
    assert PairBase(2) == PairBase(1) + 3;
    assert PairBase(3) == PairBase(2) + 2;
  }

  ghost predicate InversePair(j: nat, k: nat) {
    var l := PairBase(j) + (k - j - 1);
    && j < k < NB_MODS && 0 <= l < |NTT_MODS_CR| && NTT_MODS_CR[l] < NTT_MODS[k]
    && NTT_MODS[j] < NTT_MODS[k] && Cong(NTT_MODS_CR[l] as int * NTT_MODS[j], 1, NTT_MODS[k])
  }

  lemma InversePairs(j: nat, k: nat)
    requires j < k < NB_MODS
    ensures InversePair(j, k)
  {
    PairBases();
    hide PairBase;
    if j == 0 {
      assert k == 1 || k == 2 || k == 3 || k == 4;
    } else if j == 1 {
      assert k == 2 || k == 3 || k == 4;
    } else if j == 2 {
      assert k == 3 || k == 4;
    }
  }

  lemma WidePowers()
    ensures Pow2(IntBits(3)) == MOD_MIN * MOD_MAX * MOD_MAX
    ensures Pow2(IntBits(4)) == MOD_MIN * MOD_MIN * MOD_MAX * MOD_MAX
    ensures Pow2(IntBits(5)) == MOD_MIN * MOD_MIN * MOD_MIN * MOD_MAX * MOD_MAX
  {
    Pow2Limb();
    assert Pow2(63) == 2 * Pow2(62) && Pow2(62) == 2 * Pow2(61);
    Pow2Add(61, 62);
    Pow2Add(123, 62);
    Pow2Add(61, 185);
    Pow2Add(61, 246);
    hide Pow2;
    assert Pow2(62) == MOD_MAX && Pow2(61) == MOD_MIN;
  }

  lemma ConstantsWide(s: NttState)
    requires |s.mods| == NB_MODS && forall j :: 0 <= j < NB_MODS ==> s.mods[j].m == NTT_MODS[j]
    ensures ProductsWide(s)
  {
    WidePowers();
    hide Pow2;
    assert Product(s, 5) == 1;
    assert Product(s, 4) == s.mods[4].m * Product(s, 5);
    assert Product(s, 3) == s.mods[3].m * Product(s, 4);
    assert Product(s, 2) == s.mods[2].m * Product(s, 3);
    assert Product(s, 1) == s.mods[1].m * Product(s, 2);
    assert Product(s, 0) == s.mods[0].m * Product(s, 1);
  }

  ghost predicate InverseAt(crInv: seq<Limb>, j: nat, k: nat)
    requires k < NB_MODS
  {
    var l := PairBase(j) + (k - j - 1);
    0 <= l < |crInv| && l < |NTT_MODS_CR| && crInv[l] == (NTT_MODS_CR[l] * B) / NTT_MODS[k]
  }

  // ntt_static_init
  method NttStaticInit() returns (s: NttState)
    ensures ValidState(s) && ProductsWide(s)
  {
    hide Squared;
    hide Cong;
    hide ValidMod;
    hide PairBase;
    hide ProductsWide;
    var mods: seq<NttMod> := [];
    while |mods| < NB_MODS
      invariant |mods| <= NB_MODS
      invariant forall j :: 0 <= j < |mods| ==> ValidMod(mods[j]) && mods[j].m == NTT_MODS[j]
    {
      var j := |mods|;
      ModuliOk(j);
      var mod := InitMod(NTT_MODS[j], NTT_PROOT[j], NTT_PROOT_INV[j]);
      mods := mods + [mod];
    }
    var crInv := CrInverses();
    s := NttState(mods, NTT_MODS_CR, crInv);
    forall j, k | 0 <= j < k < NB_MODS ensures s.mods[j].m < s.mods[k].m && CrAt(s, j, k) {
      InversePairs(j, k);
      assert InverseAt(crInv, j, k);
    }
    ConstantsWide(s);
  }

  // The quotients that go with the inverses, in the order of the pairs.
  method CrInverses() returns (crInv: seq<Limb>)
    ensures forall j: nat, k: nat :: j < k < NB_MODS ==> InverseAt(crInv, j, k)
  {
    PairBases();
    hide InverseAt;
    hide PairBase;
    crInv := [];
    var j := 0;
    while j < NB_MODS - 1
      invariant 0 <= j <= NB_MODS - 1 && |crInv| == PairBase(j)
      invariant forall i: nat, k: nat :: i < j && i < k < NB_MODS ==> InverseAt(crInv, i, k)
    {
      var k := j + 1;
      while k < NB_MODS
        invariant j < k <= NB_MODS && |crInv| == PairBase(j) + (k - j - 1)
        invariant forall i: nat, q: nat :: i < j && i < q < NB_MODS ==> InverseAt(crInv, i, q)
        invariant forall q: nat :: j < q < k ==> InverseAt(crInv, j, q)
      {
        InversePairs(j, k);
        var x := InitMulModFast2(NTT_MODS_CR[|crInv|], NTT_MODS[k]);
        InverseAdded(crInv, x, j, k);
        crInv := crInv + [x];
        k := k + 1;
      }
      NextBase(j);
      j := j + 1;
    }
  }

  lemma NextBase(j: nat)
    requires j < NB_MODS - 1
    ensures PairBase(j + 1) == PairBase(j) + (NB_MODS - j - 1)
  {
  }

  lemma InverseAdded(crInv: seq<Limb>, x: Limb, j: nat, k: nat)
    requires j < k < NB_MODS && |crInv| == PairBase(j) + (k - j - 1) && |crInv| < |NTT_MODS_CR| &&
             x == (NTT_MODS_CR[|crInv|] * B) / NTT_MODS[k]
    ensures InverseAt(crInv + [x], j, k)
    ensures forall i: nat, q: nat :: i < q < NB_MODS && InverseAt(crInv, i, q) ==> InverseAt(crInv + [x], i, q)
  {
  }
}
