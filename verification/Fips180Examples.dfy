/**
 The two examples that are published with the standard for SHA-1: the digests of "abc"
 and of a message whose padding takes a second block, with every word of the message
 schedules and every value of the working variable a written out. They fix all the
 constants, distances, indices and orders in Fips180.
 */
module Fips180Examples {
  import opened Basics
  import opened Fips180

  const ABC: seq<byte> := [0x61, 0x62, 0x63]

  /** "abcdbcdecdefdefgefghfghighijhijkijkljklmklmnlmnomnopnopq": fourteen groups of four
      letters that follow each other. */
  function Longer(): (m: seq<byte>)
    ensures |m| == 56 && forall k | 0 <= k < 56 :: m[k] == Letter(k / 4 + k % 4)
  {
    seq(56, k requires 0 <= k < 56 => Letter(k / 4 + k % 4))
  }

  function Letter(i: int): byte
    requires 0 <= i < 26
  {
    (0x61 + i) as byte
  }

  const ABC_DIGEST: seq<byte> := [
    0xa9, 0x99, 0x3e, 0x36, 0x47, 0x06, 0x81, 0x6a, 0xba, 0x3e, 0x25, 0x71, 0x78, 0x50, 0xc2, 0x6c, 0x9c, 0xd0,
    0xd8, 0x9d
  ]

  const LONGER_DIGEST: seq<byte> := [
    0x84, 0x98, 0x3e, 0x44, 0x1c, 0x3b, 0xd2, 0x6e, 0xba, 0xae, 0x4a, 0xa1, 0xf9, 0x51, 0x29, 0xe5, 0xe5, 0x46,
    0x70, 0xf1
  ]

  // ----- the three blocks -----

  /** The message schedule of the block of "abc". */
  function WAbc(t: nat): word {
    match t
    case 0 => 0x61626380 case 1 => 0x00000000 case 2 => 0x00000000 case 3 => 0x00000000 case 4 => 0x00000000
    case 5 => 0x00000000 case 6 => 0x00000000 case 7 => 0x00000000 case 8 => 0x00000000 case 9 => 0x00000000
    case 10 => 0x00000000 case 11 => 0x00000000 case 12 => 0x00000000 case 13 => 0x00000000 case 14 => 0x00000000
    case 15 => 0x00000018 case 16 => 0xc2c4c700 case 17 => 0x00000000 case 18 => 0x00000030 case 19 => 0x85898e01
    case 20 => 0x00000000 case 21 => 0x00000060 case 22 => 0x0b131c03 case 23 => 0x00000030 case 24 => 0x85898ec1
    case 25 => 0x16263806 case 26 => 0x00000000 case 27 => 0x00000180 case 28 => 0x2c4c700c case 29 => 0x000000f0
    case 30 => 0x93afb507 case 31 => 0x5898e048 case 32 => 0x8e9a9202 case 33 => 0x00000600 case 34 => 0xb131c0f0
    case 35 => 0x16263bc6 case 36 => 0x4ebed41e case 37 => 0x626380a1 case 38 => 0x16263806 case 39 => 0x000018c0
    case 40 => 0xd2e138c4 case 41 => 0x00000f00 case 42 => 0x3afb5079 case 43 => 0x898e04e5 case 44 => 0xe2ba3c2b
    case 45 => 0x000060c0 case 46 => 0x053a37cd case 47 => 0x74458547 case 48 => 0xda9415ed case 49 => 0x26380a16
    case 50 => 0x626383a1 case 51 => 0x4ebf54de case 52 => 0x3835b44b case 53 => 0x0000f600 case 54 => 0x1e84c7a3
    case 55 => 0x98e04d98 case 56 => 0x651d16a0 case 57 => 0x62658ca1 case 58 => 0x458544d6 case 59 => 0x44584cb7
    case 60 => 0x7ba06619 case 61 => 0x6380aea2 case 62 => 0x0ae55269 case 63 => 0x627b49a1 case 64 => 0x7cd45c9d
    case 65 => 0x000f0000 case 66 => 0xfb50753a case 67 => 0xec6765e8 case 68 => 0xba3c2be2 case 69 => 0x0060c000
    case 70 => 0x3a37cd05 case 71 => 0x458546f4 case 72 => 0xb8599dd6 case 73 => 0x380a1a26 case 74 => 0x01e02203
    case 75 => 0xe7cc3456 case 76 => 0xe6e60b69 case 77 => 0x00f60a00 case 78 => 0x5795ef4f case _ => 0x822e0879
  }

  /** Its values of a: that before round t is number t + 4, those before it give b to e. */
  function AAbc(t: nat): word {
    match t
    case 0 => 0x0f4b87c3 case 1 => 0x40c951d8 case 2 => 0x62eb73fa case 3 => 0xefcdab89 case 4 => 0x67452301
    case 5 => 0x0116fc33 case 6 => 0x8990536d case 7 => 0xa1390f08 case 8 => 0xcdd8e11b case 9 => 0xcfd499de
    case 10 => 0x3fc7ca40 case 11 => 0x993e30c1 case 12 => 0x9e8c07d4 case 13 => 0x4b6ae328 case 14 => 0x8351f929
    case 15 => 0xfbda9e89 case 16 => 0x63188fe4 case 17 => 0x4607b664 case 18 => 0x9128f695 case 19 => 0x196bee77
    case 20 => 0x20bdd62f case 21 => 0x4e925823 case 22 => 0x82aa6728 case 23 => 0xdc64901d case 24 => 0xfd9e1d7d
    case 25 => 0x1a37b0ca case 26 => 0x33a23bfc case 27 => 0x21283486 case 28 => 0xd541f12d case 29 => 0xc7567dc6
    case 30 => 0x48413ba4 case 31 => 0xbe35fbd5 case 32 => 0x4aa84d97 case 33 => 0x8370b52e case 34 => 0xc5fbaf5d
    case 35 => 0x1267b407 case 36 => 0x3b845d33 case 37 => 0x046faa0a case 38 => 0x2c0ebc11 case 39 => 0x21796ad4
    case 40 => 0xdcbbb0cb case 41 => 0x0f511fd8 case 42 => 0xdc63973f case 43 => 0x4c986405 case 44 => 0x32de1cba
    case 45 => 0xfc87dedf case 46 => 0x970a0d5c case 47 => 0x7f193dc5 case 48 => 0xee1b1aaf case 49 => 0x40f28e09
    case 50 => 0x1c51e1f2 case 51 => 0xa01b846c case 52 => 0xbead02ca case 53 => 0xbaf39337 case 54 => 0x120731c5
    case 55 => 0x641db2ce case 56 => 0x3847ad66 case 57 => 0xe490436d case 58 => 0x27e9f1d8 case 59 => 0x7b71f76d
    case 60 => 0x5e6456af case 61 => 0xc846093f case 62 => 0xd262ff50 case 63 => 0x09d785fd case 64 => 0x3f52de5a
    case 65 => 0xd756c147 case 66 => 0x548c9cb2 case 67 => 0xb66c020b case 68 => 0x6b61c9e1 case 69 => 0x19dfa7ac
    case 70 => 0x101655f9 case 71 => 0x0c3df2b4 case 72 => 0x78dd4d2b case 73 => 0x497093c0 case 74 => 0x3f2588c2
    case 75 => 0xc199f8c7 case 76 => 0x39859de7 case 77 => 0xedb42de4 case 78 => 0x11793f6f case 79 => 0x5ee76897
    case 80 => 0x63f7dab7 case 81 => 0xa079b7d9 case 82 => 0x860d21cc case 83 => 0x5738d5e1 case _ => 0x42541b35
  }

  /** The message schedule of the first block of the longer message. */
  function WFirst(t: nat): word {
    match t
    case 0 => 0x61626364 case 1 => 0x62636465 case 2 => 0x63646566 case 3 => 0x64656667 case 4 => 0x65666768
    case 5 => 0x66676869 case 6 => 0x6768696a case 7 => 0x68696a6b case 8 => 0x696a6b6c case 9 => 0x6a6b6c6d
    case 10 => 0x6b6c6d6e case 11 => 0x6c6d6e6f case 12 => 0x6d6e6f70 case 13 => 0x6e6f7071 case 14 => 0x80000000
    case 15 => 0x00000000 case 16 => 0x0a063a3e case 17 => 0xd8dadcdf case 18 => 0xdadcdec0 case 19 => 0xc8d2b4be
    case 20 => 0x6f757b5b case 21 => 0x757b5967 case 22 => 0x8da16d70 case 23 => 0xdaeefaba case 24 => 0xfaf6cab6
    case 25 => 0xa6fb675a case 26 => 0x0c604cc8 case 27 => 0x604cc02c case 28 => 0x49c0e6e2 case 29 => 0x2ee8cbbc
    case 30 => 0xcfd72ec4 case 31 => 0x97e9810e case 32 => 0x0989cbe8 case 33 => 0xf24843fe case 34 => 0x5c40d0ba
    case 35 => 0xa8d9cc3b case 36 => 0xb2b9666e case 37 => 0xba7b71b7 case 38 => 0x20b28a72 case 39 => 0xb28af500
    case 40 => 0x8ac87842 case 41 => 0x289addf4 case 42 => 0x56d51f21 case 43 => 0xd96b7fd2 case 44 => 0x3868e778
    case 45 => 0xab5e4848 case 46 => 0x7f0e2118 case 47 => 0xde87a111 case 48 => 0xe8be56b0 case 49 => 0x1a0ae652
    case 50 => 0xcd5611c8 case 51 => 0x46ef29dc case 52 => 0x60d3da6d case 53 => 0xddf3ba6e case 54 => 0x2737f5e9
    case 55 => 0x4888a710 case 56 => 0xd2a1177b case 57 => 0x9999633b case 58 => 0xd6c69d03 case 59 => 0xccf6127b
    case 60 => 0x7c58fe6d case 61 => 0xfdd99c68 case 62 => 0xf8e32074 case 63 => 0xe0ba3c7d case 64 => 0x152198d6
    case 65 => 0x7b3f1982 case 66 => 0x37f2d5b7 case 67 => 0x8596323e case 68 => 0x810790d6 case 69 => 0xbea0a942
    case 70 => 0x11c7e1b1 case 71 => 0x6158d101 case 72 => 0x5fcd77d9 case 73 => 0x7f2f12e6 case 74 => 0xf868cfb1
    case 75 => 0xd6e997e9 case 76 => 0xf526b852 case 77 => 0xb7578dcc case 78 => 0x55d99df4 case _ => 0x1ff69958
  }

  /** Its values of a: that before round t is number t + 4, those before it give b to e. */
  function AFirst(t: nat): word {
    match t
    case 0 => 0x0f4b87c3 case 1 => 0x40c951d8 case 2 => 0x62eb73fa case 3 => 0xefcdab89 case 4 => 0x67452301
    case 5 => 0x0116fc17 case 6 => 0xebf3b452 case 7 => 0x5109913a case 8 => 0x2c4f6eac case 9 => 0x33f4ae5b
    case 10 => 0x96b85189 case 11 => 0xdb04cb58 case 12 => 0x45833f0f case 13 => 0xc565c35e case 14 => 0x6350afda
    case 15 => 0x8993ea77 case 16 => 0xe19ecaa2 case 17 => 0x8603481e case 18 => 0x32f94a85 case 19 => 0xb2e7a8be
    case 20 => 0x42637e39 case 21 => 0x6b068048 case 22 => 0x426b9c35 case 23 => 0x944b1bd1 case 24 => 0x6c445652
    case 25 => 0x95836da5 case 26 => 0x09511177 case 27 => 0xe2b92dc4 case 28 => 0xfd224575 case 29 => 0xeeb82d9a
    case 30 => 0x5a142c1a case 31 => 0x2972f7c7 case 32 => 0xd526a644 case 33 => 0xe1122421 case 34 => 0x05b457b2
    case 35 => 0xa9c84bec case 36 => 0x52e31f60 case 37 => 0x5af3242c case 38 => 0x31c756a9 case 39 => 0xe9ac987c
    case 40 => 0xab7c32ee case 41 => 0x5933fc99 case 42 => 0x43f87ae9 case 43 => 0x24957f22 case 44 => 0xadeb7478
    case 45 => 0xd70e5010 case 46 => 0x79bcfb08 case 47 => 0xf9bcb8de case 48 => 0x633e9561 case 49 => 0x98c1ea64
    case 50 => 0xc6ea241e case 51 => 0xa2ad4f02 case 52 => 0xc8a69090 case 53 => 0x88341600 case 54 => 0x7e846f58
    case 55 => 0x86e358ba case 56 => 0x8d2e76c8 case 57 => 0xce892e10 case 58 => 0xedea95b1 case 59 => 0x36d1230a
    case 60 => 0x776c3910 case 61 => 0xa681b723 case 62 => 0xac0a794f case 63 => 0xf03d3782 case 64 => 0x9ef775c3
    case 65 => 0x36254b13 case 66 => 0x4080d4dc case 67 => 0x2bfaf7a8 case 68 => 0x513f9ca0 case 69 => 0xe5895c81
    case 70 => 0x1037d2d5 case 71 => 0x14a82da9 case 72 => 0x6d17c9fd case 73 => 0x2c7b07bd case 74 => 0xfdf6efff
    case 75 => 0x112b96e3 case 76 => 0x84065712 case 77 => 0xab89fb71 case 78 => 0xc5210e35 case 79 => 0x352d9f4b
    case 80 => 0x1a0e0e0a case 81 => 0xd0d47349 case 82 => 0xad38620d case 83 => 0xd3ad7c25 case _ => 0x8ce34517
  }

  /** The message schedule of its second block. */
  function WSecond(t: nat): word {
    match t
    case 0 => 0x00000000 case 1 => 0x00000000 case 2 => 0x00000000 case 3 => 0x00000000 case 4 => 0x00000000
    case 5 => 0x00000000 case 6 => 0x00000000 case 7 => 0x00000000 case 8 => 0x00000000 case 9 => 0x00000000
    case 10 => 0x00000000 case 11 => 0x00000000 case 12 => 0x00000000 case 13 => 0x00000000 case 14 => 0x00000000
    case 15 => 0x000001c0 case 16 => 0x00000000 case 17 => 0x00000000 case 18 => 0x00000380 case 19 => 0x00000000
    case 20 => 0x00000000 case 21 => 0x00000700 case 22 => 0x00000000 case 23 => 0x00000380 case 24 => 0x00000e00
    case 25 => 0x00000000 case 26 => 0x00000000 case 27 => 0x00001c00 case 28 => 0x00000000 case 29 => 0x00000d80
    case 30 => 0x00003800 case 31 => 0x00000480 case 32 => 0x00000000 case 33 => 0x00007000 case 34 => 0x00000e00
    case 35 => 0x00003600 case 36 => 0x0000e000 case 37 => 0x00000e00 case 38 => 0x00000000 case 39 => 0x0001ce00
    case 40 => 0x00000000 case 41 => 0x0000d800 case 42 => 0x00038000 case 43 => 0x00004f00 case 44 => 0x00000000
    case 45 => 0x00070e00 case 46 => 0x0000ee00 case 47 => 0x00037500 case 48 => 0x000e0000 case 49 => 0x0000e000
    case 50 => 0x00003600 case 51 => 0x001cee00 case 52 => 0x00000000 case 53 => 0x000df000 case 54 => 0x00380000
    case 55 => 0x0004c600 case 56 => 0x0000e000 case 57 => 0x0070ee00 case 58 => 0x000ee000 case 59 => 0x00369e00
    case 60 => 0x00e00000 case 61 => 0x000ed600 case 62 => 0x0000e000 case 63 => 0x01cea600 case 64 => 0x00000000
    case 65 => 0x00d80000 case 66 => 0x0380e000 case 67 => 0x004f0000 case 68 => 0x00000000 case 69 => 0x070e0000
    case 70 => 0x00ee0000 case 71 => 0x03751c00 case 72 => 0x0e000000 case 73 => 0x00e0e000 case 74 => 0x00363800
    case 75 => 0x1cee9000 case 76 => 0x00000000 case 77 => 0x0df09000 case 78 => 0x3800e000 case _ => 0x04c77400
  }

  /** Its values of a: that before round t is number t + 4, those before it give b to e. */
  function ASecond(t: nat): word {
    match t
    case 0 => 0x295995c9 case 1 => 0x119dc522 case 2 => 0x1023d604 case 3 => 0xc37b27ae case 4 => 0xf4286818
    case 5 => 0x2df257e9 case 6 => 0x4d3dc58f case 7 => 0xc352bb05 case 8 => 0xeef743c6 case 9 => 0x41e34277
    case 10 => 0x5443915c case 11 => 0xe7fa0377 case 12 => 0xc6946813 case 13 => 0xfdde1de1 case 14 => 0xb8538aca
    case 15 => 0x6ba94f63 case 16 => 0x43a2792f case 17 => 0xfecd7bbf case 18 => 0xa2604ca8 case 19 => 0x258b0baa
    case 20 => 0xd9772360 case 21 => 0x5507db6e case 22 => 0xa51b58bc case 23 => 0xc2eb709f case 24 => 0xd8992153
    case 25 => 0x37482f5f case 26 => 0xee8700bd case 27 => 0x9ad594b9 case 28 => 0x8fbaa5b9 case 29 => 0x88fb5867
    case 30 => 0xeec50521 case 31 => 0x50bce434 case 32 => 0x5c416daf case 33 => 0x2429be5f case 34 => 0x0a2fb108
    case 35 => 0x17986223 case 36 => 0x8a4af384 case 37 => 0x6b629993 case 38 => 0xf15f04f3 case 39 => 0x295cc25b
    case 40 => 0x696da404 case 41 => 0xcef5ae12 case 42 => 0x87d5b80c case 43 => 0x84e2a5f2 case 44 => 0x03bb6310
    case 45 => 0xc2d8f75f case 46 => 0xbfb25768 case 47 => 0x28589152 case 48 => 0xec1d3d61 case 49 => 0x3caed7af
    case 50 => 0xc3d033ea case 51 => 0x7316056a case 52 => 0x46f93b68 case 53 => 0xdc8e7f26 case 54 => 0x850d411c
    case 55 => 0x7e4672c0 case 56 => 0x89fbd41d case 57 => 0x1797e228 case 58 => 0x431d65bc case 59 => 0x2bdbb8cb
    case 60 => 0x6da72e7f case 61 => 0xa8495a9b case 62 => 0xe785655a case 63 => 0x5b086c42 case 64 => 0xa65818f7
    case 65 => 0x7aab101b case 66 => 0x93614c9c case 67 => 0xf66d9bf4 case 68 => 0xd504902b case 69 => 0x60a9da62
    case 70 => 0x8b687819 case 71 => 0x083e90c3 case 72 => 0xf6226bbf case 73 => 0x76c0563b case 74 => 0x989dd165
    case 75 => 0x8b2c7573 case 76 => 0xae1b8e7b case 77 => 0xca1840de case 78 => 0x16f3babb case 79 => 0xd28d83ad
    case 80 => 0x6bc02dfe case 81 => 0xd3a6e275 case 82 => 0xda955482 case 83 => 0x58c0aac0 case _ => 0x906fd62c
  }

  /** One of the three blocks. */
  datatype Which = Abc | First | Second {
    function Word(t: nat): word {
      match this
      case Abc => WAbc(t)
      case First => WFirst(t)
      case Second => WSecond(t)
    }

    function A(t: nat): word {
      match this
      case Abc => AAbc(t)
      case First => AFirst(t)
      case Second => ASecond(t)
    }

    /** The working variables before round t. */
    function V(t: nat): Vars { Vars(A(t + 4), A(t + 3), RotL30(A(t + 2)), RotL30(A(t + 1)), RotL30(A(t))) }

    function Start(): Vars { if Second? then AfterFirst else H0 }

    function Block(): (b: seq<byte>)
      ensures |b| == 64
    {
      PaddedAbc();
      PaddedLonger();
      match this
      case Abc => Pad(ABC)
      case First => Pad(Longer())[..64]
      case Second => Pad(Longer())[64..]
    }
  }

  const AfterFirst := Vars(0xf4286818, 0xc37b27ae, 0x0408f581, 0x84677148, 0x4a566572)

  lemma ScheduleAbc(t: nat)
    requires 16 <= t < 80
    ensures NewW(WAbc(t - 3), WAbc(t - 8), WAbc(t - 14), WAbc(t - 16)) == WAbc(t)
  {
    match t
    case 16 => case 17 => case 18 => case 19 => case 20 => case 21 => case 22 => case 23 => case 24 => case 25 =>
    case 26 => case 27 => case 28 => case 29 => case 30 => case 31 => case 32 => case 33 => case 34 => case 35 =>
    case 36 => case 37 => case 38 => case 39 => case 40 => case 41 => case 42 => case 43 => case 44 => case 45 =>
    case 46 => case 47 => case 48 => case 49 => case 50 => case 51 => case 52 => case 53 => case 54 => case 55 =>
    case 56 => case 57 => case 58 => case 59 => case 60 => case 61 => case 62 => case 63 => case 64 => case 65 =>
    case 66 => case 67 => case 68 => case 69 => case 70 => case 71 => case 72 => case 73 => case 74 => case 75 =>
    case 76 => case 77 => case 78 => case _ => assert t == 79;
  }

  lemma RoundsAbc1(t: nat)
    requires 0 <= t < 20
    ensures NewA(Abc.V(t), t, WAbc(t)) == AAbc(t + 5)
  {
    match t
    case 0 => case 1 => case 2 => case 3 => case 4 => case 5 => case 6 => case 7 => case 8 => case 9 => case 10 =>
    case 11 => case 12 => case 13 => case 14 => case 15 => case 16 => case 17 => case 18 =>
    case _ => assert t == 19;
  }

  lemma RoundsAbc2(t: nat)
    requires 20 <= t < 40
    ensures NewA(Abc.V(t), t, WAbc(t)) == AAbc(t + 5)
  {
    match t
    case 20 => case 21 => case 22 => case 23 => case 24 => case 25 => case 26 => case 27 => case 28 => case 29 =>
    case 30 => case 31 => case 32 => case 33 => case 34 => case 35 => case 36 => case 37 => case 38 =>
    case _ => assert t == 39;
  }

  lemma RoundsAbc3(t: nat)
    requires 40 <= t < 60
    ensures NewA(Abc.V(t), t, WAbc(t)) == AAbc(t + 5)
  {
    match t
    case 40 => case 41 => case 42 => case 43 => case 44 => case 45 => case 46 => case 47 => case 48 => case 49 =>
    case 50 => case 51 => case 52 => case 53 => case 54 => case 55 => case 56 => case 57 => case 58 =>
    case _ => assert t == 59;
  }

  lemma RoundsAbc4(t: nat)
    requires 60 <= t < 80
    ensures NewA(Abc.V(t), t, WAbc(t)) == AAbc(t + 5)
  {
    match t
    case 60 => case 61 => case 62 => case 63 => case 64 => case 65 => case 66 => case 67 => case 68 => case 69 =>
    case 70 => case 71 => case 72 => case 73 => case 74 => case 75 => case 76 => case 77 => case 78 =>
    case _ => assert t == 79;
  }

  lemma RoundsAbc(t: nat)
    requires t < 80
    ensures NewA(Abc.V(t), t, WAbc(t)) == AAbc(t + 5)
  {
    if t < 20 {
      RoundsAbc1(t);
    } else if t < 40 {
      RoundsAbc2(t);
    } else if t < 60 {
      RoundsAbc3(t);
    } else {
      RoundsAbc4(t);
    }
  }

  lemma ScheduleFirst(t: nat)
    requires 16 <= t < 80
    ensures NewW(WFirst(t - 3), WFirst(t - 8), WFirst(t - 14), WFirst(t - 16)) == WFirst(t)
  {
    match t
    case 16 => case 17 => case 18 => case 19 => case 20 => case 21 => case 22 => case 23 => case 24 => case 25 =>
    case 26 => case 27 => case 28 => case 29 => case 30 => case 31 => case 32 => case 33 => case 34 => case 35 =>
    case 36 => case 37 => case 38 => case 39 => case 40 => case 41 => case 42 => case 43 => case 44 => case 45 =>
    case 46 => case 47 => case 48 => case 49 => case 50 => case 51 => case 52 => case 53 => case 54 => case 55 =>
    case 56 => case 57 => case 58 => case 59 => case 60 => case 61 => case 62 => case 63 => case 64 => case 65 =>
    case 66 => case 67 => case 68 => case 69 => case 70 => case 71 => case 72 => case 73 => case 74 => case 75 =>
    case 76 => case 77 => case 78 => case _ => assert t == 79;
  }

  lemma RoundsFirst1(t: nat)
    requires 0 <= t < 20
    ensures NewA(First.V(t), t, WFirst(t)) == AFirst(t + 5)
  {
    match t
    case 0 => case 1 => case 2 => case 3 => case 4 => case 5 => case 6 => case 7 => case 8 => case 9 => case 10 =>
    case 11 => case 12 => case 13 => case 14 => case 15 => case 16 => case 17 => case 18 =>
    case _ => assert t == 19;
  }

  lemma RoundsFirst2(t: nat)
    requires 20 <= t < 40
    ensures NewA(First.V(t), t, WFirst(t)) == AFirst(t + 5)
  {
    match t
    case 20 => case 21 => case 22 => case 23 => case 24 => case 25 => case 26 => case 27 => case 28 => case 29 =>
    case 30 => case 31 => case 32 => case 33 => case 34 => case 35 => case 36 => case 37 => case 38 =>
    case _ => assert t == 39;
  }

  lemma RoundsFirst3(t: nat)
    requires 40 <= t < 60
    ensures NewA(First.V(t), t, WFirst(t)) == AFirst(t + 5)
  {
    match t
    case 40 => case 41 => case 42 => case 43 => case 44 => case 45 => case 46 => case 47 => case 48 => case 49 =>
    case 50 => case 51 => case 52 => case 53 => case 54 => case 55 => case 56 => case 57 => case 58 =>
    case _ => assert t == 59;
  }

  lemma RoundsFirst4(t: nat)
    requires 60 <= t < 80
    ensures NewA(First.V(t), t, WFirst(t)) == AFirst(t + 5)
  {
    match t
    case 60 => case 61 => case 62 => case 63 => case 64 => case 65 => case 66 => case 67 => case 68 => case 69 =>
    case 70 => case 71 => case 72 => case 73 => case 74 => case 75 => case 76 => case 77 => case 78 =>
    case _ => assert t == 79;
  }

  lemma RoundsFirst(t: nat)
    requires t < 80
    ensures NewA(First.V(t), t, WFirst(t)) == AFirst(t + 5)
  {
    if t < 20 {
      RoundsFirst1(t);
    } else if t < 40 {
      RoundsFirst2(t);
    } else if t < 60 {
      RoundsFirst3(t);
    } else {
      RoundsFirst4(t);
    }
  }

  lemma ScheduleSecond(t: nat)
    requires 16 <= t < 80
    ensures NewW(WSecond(t - 3), WSecond(t - 8), WSecond(t - 14), WSecond(t - 16)) == WSecond(t)
  {
    match t
    case 16 => case 17 => case 18 => case 19 => case 20 => case 21 => case 22 => case 23 => case 24 => case 25 =>
    case 26 => case 27 => case 28 => case 29 => case 30 => case 31 => case 32 => case 33 => case 34 => case 35 =>
    case 36 => case 37 => case 38 => case 39 => case 40 => case 41 => case 42 => case 43 => case 44 => case 45 =>
    case 46 => case 47 => case 48 => case 49 => case 50 => case 51 => case 52 => case 53 => case 54 => case 55 =>
    case 56 => case 57 => case 58 => case 59 => case 60 => case 61 => case 62 => case 63 => case 64 => case 65 =>
    case 66 => case 67 => case 68 => case 69 => case 70 => case 71 => case 72 => case 73 => case 74 => case 75 =>
    case 76 => case 77 => case 78 => case _ => assert t == 79;
  }

  lemma RoundsSecond1(t: nat)
    requires 0 <= t < 20
    ensures NewA(Second.V(t), t, WSecond(t)) == ASecond(t + 5)
  {
    match t
    case 0 => case 1 => case 2 => case 3 => case 4 => case 5 => case 6 => case 7 => case 8 => case 9 => case 10 =>
    case 11 => case 12 => case 13 => case 14 => case 15 => case 16 => case 17 => case 18 =>
    case _ => assert t == 19;
  }

  lemma RoundsSecond2(t: nat)
    requires 20 <= t < 40
    ensures NewA(Second.V(t), t, WSecond(t)) == ASecond(t + 5)
  {
    match t
    case 20 => case 21 => case 22 => case 23 => case 24 => case 25 => case 26 => case 27 => case 28 => case 29 =>
    case 30 => case 31 => case 32 => case 33 => case 34 => case 35 => case 36 => case 37 => case 38 =>
    case _ => assert t == 39;
  }

  lemma RoundsSecond3(t: nat)
    requires 40 <= t < 60
    ensures NewA(Second.V(t), t, WSecond(t)) == ASecond(t + 5)
  {
    match t
    case 40 => case 41 => case 42 => case 43 => case 44 => case 45 => case 46 => case 47 => case 48 => case 49 =>
    case 50 => case 51 => case 52 => case 53 => case 54 => case 55 => case 56 => case 57 => case 58 =>
    case _ => assert t == 59;
  }

  lemma RoundsSecond4(t: nat)
    requires 60 <= t < 80
    ensures NewA(Second.V(t), t, WSecond(t)) == ASecond(t + 5)
  {
    match t
    case 60 => case 61 => case 62 => case 63 => case 64 => case 65 => case 66 => case 67 => case 68 => case 69 =>
    case 70 => case 71 => case 72 => case 73 => case 74 => case 75 => case 76 => case 77 => case 78 =>
    case _ => assert t == 79;
  }

  lemma RoundsSecond(t: nat)
    requires t < 80
    ensures NewA(Second.V(t), t, WSecond(t)) == ASecond(t + 5)
  {
    if t < 20 {
      RoundsSecond1(t);
    } else if t < 40 {
      RoundsSecond2(t);
    } else if t < 60 {
      RoundsSecond3(t);
    } else {
      RoundsSecond4(t);
    }
  }

  lemma RoundStep(x: Which, t: nat)
    requires t < 80
    ensures Round(x.V(t), t, x.Word(t)) == x.V(t + 1)
  {
    match x
    case Abc => RoundsAbc(t);
    case First => RoundsFirst(t);
    case Second => RoundsSecond(t);
  }

  lemma ScheduleStep(x: Which, t: nat)
    requires 16 <= t < 80
    ensures NewW(x.Word(t - 3), x.Word(t - 8), x.Word(t - 14), x.Word(t - 16)) == x.Word(t)
  {
    match x
    case Abc => ScheduleAbc(t);
    case First => ScheduleFirst(t);
    case Second => ScheduleSecond(t);
  }

  // ----- padding -----

  lemma {:induction false} ZeroBytes(k: nat)
    ensures BigEndian(0, k) == Repeat(0, k)
  {
    if k > 0 {
      ZeroBytes(k - 1);
    }
  }

  lemma LengthOfAbc()
    ensures BigEndian(24, 8) == Repeat(0, 7) + [24]
  {
    ZeroBytes(7);
  }

  lemma LengthOfLonger()
    ensures BigEndian(448, 8) == Repeat(0, 6) + [1, 192]
  {
    LengthByte();
    assert 448 / 256 == 1 && 448 % 256 == 192;
  }

  lemma LengthByte()
    ensures BigEndian(1, 7) == Repeat(0, 6) + [1]
  {
    ZeroBytes(6);
  }

  /** The message, a one bit, zeros, and the length in bits. */
  lemma PaddedAbc()
    ensures var p := Pad(ABC);
      |p| == 64 && p[..3] == ABC && p[3] == 0x80 && p[63] == 24 && forall k | 4 <= k < 63 :: p[k] == 0
  {
    LengthOfAbc();
  }

  lemma PaddedLonger()
    ensures var p := Pad(Longer());
      && |p| == 128 && p[..56] == Longer() && p[56] == 0x80 && p[126] == 1 && p[127] == 192
      && forall k | 57 <= k < 126 :: p[k] == 0
  {
    LengthOfLonger();
  }

  lemma FirstOfAbc(t: nat)
    requires t < 16
    ensures WordBE(Abc.Block()[4 * t], Abc.Block()[4 * t + 1], Abc.Block()[4 * t + 2], Abc.Block()[4 * t + 3]) == WAbc(t)
  {
    PaddedAbc();
    var p := Pad(ABC);
    if t == 0 {
      assert p[..3][0] == 0x61 && p[..3][1] == 0x62 && p[..3][2] == 0x63;
    } else if t < 15 {
      assert WordBE(0, 0, 0, 0) == WAbc(t) by {
        match t
        case 1 => case 2 => case 3 => case 4 => case 5 => case 6 => case 7 => case 8 => case 9 => case 10 => case 11 =>
        case 12 => case 13 => case _ => assert t == 14;
      }
    }
  }

  lemma LetterWordLow(t: nat)
    requires t < 7
    ensures WordBE(Letter(t), Letter(t + 1), Letter(t + 2), Letter(t + 3)) == WFirst(t)
  {
    match t
    case 0 => case 1 => case 2 => case 3 => case 4 => case 5 => case _ => assert t == 6;
  }

  lemma LetterWordHigh(t: nat)
    requires 7 <= t < 14
    ensures WordBE(Letter(t), Letter(t + 1), Letter(t + 2), Letter(t + 3)) == WFirst(t)
  {
    match t
    case 7 => case 8 => case 9 => case 10 => case 11 => case 12 => case _ => assert t == 13;
  }

  lemma BlockLetter(t: nat, i: nat)
    requires t < 14 && i < 4
    ensures First.Block()[4 * t + i] == Letter(t + i)
  {
    PaddedLonger();
    var p := Pad(Longer());
    assert p[..56][4 * t + i] == p[4 * t + i] && (4 * t + i) / 4 == t;
  }

  lemma LetterWords(t: nat)
    requires t < 14
    ensures var b := First.Block();
      WordBE(b[4 * t], b[4 * t + 1], b[4 * t + 2], b[4 * t + 3]) == WordBE(Letter(t), Letter(t + 1), Letter(t + 2), Letter(t + 3))
  {
    BlockLetter(t, 0);
    BlockLetter(t, 1);
    BlockLetter(t, 2);
    BlockLetter(t, 3);
  }

  lemma AfterLetters()
    ensures var b := First.Block(); WordBE(b[56], b[57], b[58], b[59]) == WFirst(14) && WordBE(b[60], b[61], b[62], b[63]) == WFirst(15)
  {
    PaddedLonger();
  }

  lemma FirstOfFirst(t: nat)
    requires t < 16
    ensures var b := First.Block(); WordBE(b[4 * t], b[4 * t + 1], b[4 * t + 2], b[4 * t + 3]) == WFirst(t)
  {
    if t < 14 {
      LetterWords(t);
      if t < 7 {
        LetterWordLow(t);
      } else {
        LetterWordHigh(t);
      }
    } else {
      AfterLetters();
    }
  }

  lemma FirstOfSecond(t: nat)
    requires t < 16
    ensures var b := Second.Block(); WordBE(b[4 * t], b[4 * t + 1], b[4 * t + 2], b[4 * t + 3]) == WSecond(t)
  {
    PaddedLonger();
    var p := Pad(Longer());
    assert forall k | 0 <= k < 64 :: p[64..][k] == p[64 + k];
    if t < 15 {
      assert WordBE(0, 0, 0, 0) == WSecond(t) by {
        match t
        case 0 => case 1 => case 2 => case 3 => case 4 => case 5 => case 6 => case 7 => case 8 => case 9 => case 10 =>
        case 11 => case 12 => case 13 => case _ => assert t == 14;
      }
    }
  }

  lemma FirstWords(x: Which, t: nat)
    requires t < 16
    ensures WordBE(x.Block()[4 * t], x.Block()[4 * t + 1], x.Block()[4 * t + 2], x.Block()[4 * t + 3]) == x.Word(t)
  {
    match x
    case Abc => FirstOfAbc(t);
    case First => FirstOfFirst(t);
    case Second => FirstOfSecond(t);
  }

  // ----- the digests -----

  lemma {:induction false} ScheduleIs(x: Which, t: nat)
    requires t < 80
    ensures Schedule(x.Block(), t) == x.Word(t)
  {
    if t < 16 {
      FirstWords(x, t);
    } else {
      ScheduleIs(x, t - 3);
      ScheduleIs(x, t - 8);
      ScheduleIs(x, t - 14);
      ScheduleIs(x, t - 16);
      ScheduleStep(x, t);
    }
  }

  lemma {:induction false} RoundsAre(x: Which, t: nat)
    requires t <= 80
    ensures Rounds(x.Start(), ScheduleWords(x.Block())[..t]) == x.V(t)
  {
    var s := ScheduleWords(x.Block());
    if t == 0 {
      StartIs(x);
    } else {
      RoundsAre(x, t - 1);
      RoundStep(x, t - 1);
      ScheduleIs(x, t - 1);
      assert s[..t][..t - 1] == s[..t - 1];
    }
  }

  lemma StartIs(x: Which)
    ensures x.V(0) == x.Start()
  {
  }

  lemma CompressedIs(x: Which)
    ensures Compress(x.Start(), x.Block()) == AddVars(x.Start(), x.V(80))
  {
    RoundsAre(x, 80);
    assert ScheduleWords(x.Block())[..80] == ScheduleWords(x.Block());
  }

  lemma LastAbc()
    ensures Abc.V(80) == Vars(0x42541b35, 0x5738d5e1, 0x21834873, 0x681e6df6, 0xd8fdf6ad)
  {
    var t := 80;
    assert AAbc(t + 0) == 0x63f7dab7 && AAbc(t + 1) == 0xa079b7d9 && AAbc(t + 2) == 0x860d21cc;
    assert AAbc(t + 3) == 0x5738d5e1 && AAbc(t + 4) == 0x42541b35;
  }

  lemma LastFirst()
    ensures First.V(80) == Vars(0x8ce34517, 0xd3ad7c25, 0x6b4e1883, 0x74351cd2, 0x86838382)
  {
    var t := 80;
    assert AFirst(t + 0) == 0x1a0e0e0a && AFirst(t + 1) == 0xd0d47349 && AFirst(t + 2) == 0xad38620d;
    assert AFirst(t + 3) == 0xd3ad7c25 && AFirst(t + 4) == 0x8ce34517;
  }

  lemma LastSecond()
    ensures Second.V(80) == Vars(0x906fd62c, 0x58c0aac0, 0xb6a55520, 0x74e9b89d, 0x9af00b7f)
  {
    var t := 80;
    assert ASecond(t + 0) == 0x6bc02dfe && ASecond(t + 1) == 0xd3a6e275 && ASecond(t + 2) == 0xda955482;
    assert ASecond(t + 3) == 0x58c0aac0 && ASecond(t + 4) == 0x906fd62c;
  }

  lemma ResultsAre(x: Which)
    ensures AddVars(x.Start(), x.V(80)) ==
      match x
      case Abc => Vars(0xa9993e36, 0x4706816a, 0xba3e2571, 0x7850c26c, 0x9cd0d89d)
      case First => AfterFirst
      case Second => Vars(0x84983e44, 0x1c3bd26e, 0xbaae4aa1, 0xf95129e5, 0xe54670f1)
  {
    LastAbc();
    LastFirst();
    LastSecond();
  }

  lemma FoldBlocks(h: Vars, p: seq<byte>)
    ensures |p| == 64 ==> Fold(h, p) == Compress(h, p)
    ensures |p| == 128 ==> Fold(h, p) == Compress(Compress(h, p[..64]), p[64..])
  {
    assert Fold(h, []) == h;
    if |p| == 64 {
      assert p[..0] == [] && p[0..] == p;
    } else if |p| == 128 {
      var q := p[..64];
      assert q[..0] == [] && q[0..] == q;
    }
  }

  lemma BytesAre()
    ensures HashBytes(Vars(0xa9993e36, 0x4706816a, 0xba3e2571, 0x7850c26c, 0x9cd0d89d)) == ABC_DIGEST
    ensures HashBytes(Vars(0x84983e44, 0x1c3bd26e, 0xbaae4aa1, 0xf95129e5, 0xe54670f1)) == LONGER_DIGEST
  {
  }

  /** The published digests. */
  lemma KnownDigests()
    ensures Digest(ABC) == ABC_DIGEST
    ensures Digest(Longer()) == LONGER_DIGEST
  {
    PaddedAbc();
    PaddedLonger();
    FoldBlocks(H0, Pad(ABC));
    FoldBlocks(H0, Pad(Longer()));
    CompressedIs(Abc);
    CompressedIs(First);
    CompressedIs(Second);
    ResultsAre(Abc);
    ResultsAre(First);
    ResultsAre(Second);
    BytesAre();
  }
}
