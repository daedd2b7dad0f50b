/**
 * The one mode that is built in: its band edges, `logN` and pulse cache, and the proof that in
 * each of its bands, at each of its levels, the decoder retraces the encoder.
 */
module StaticMode {
  import opened Basics
  import opened SplitCoding
  import opened CeltRules

  /** `nbEBands` and `maxLM` of the mode. */
  const BANDS := 21
  const MAX_LEVEL := 3

  /** `eband5ms`. */
  const EDGES: seq<nat> := [0, 1, 2, 3, 4, 5, 6, 7, 8, 10, 12, 14, 16, 20, 24, 28, 34, 40, 48, 60, 78, 100]

  /** `logN400`. */
  const LOG_N: seq<int> := [0, 0, 0, 0, 0, 0, 0, 0, 8, 8, 8, 8, 16, 16, 16, 21, 21, 24, 29, 34, 36]

  /** `cache_index50`, one line for each level from -1 up. */
  const CACHE_INDEX: seq<seq<int>> := [
    [-1, -1, -1, -1, -1, -1, -1, -1, 0, 0, 0, 0, 41, 41, 41, 82, 82, 123, 164, 200, 222],
    [0, 0, 0, 0, 0, 0, 0, 0, 41, 41, 41, 41, 123, 123, 123, 164, 164, 240, 266, 283, 295],
    [41, 41, 41, 41, 41, 41, 41, 41, 123, 123, 123, 123, 240, 240, 240, 266, 266, 305, 318, 328, 336],
    [123, 123, 123, 123, 123, 123, 123, 123, 240, 240, 240, 240, 305, 305, 305, 318, 318, 343, 351, 358, 364],
    [240, 240, 240, 240, 240, 240, 240, 240, 305, 305, 305, 305, 343, 343, 343, 351, 351, 370, 376, 382, 387]
  ]

  /** The stretch of `cache_bits50` at an index, without the count of entries that it begins with. */
  function CacheAt(index: int): seq<nat>
  {
    match index
    case 0 => [7, 7, 7, 7, 7, 7, 7, 7, 7, 7, 7, 7, 7, 7, 7, 7, 7, 7, 7, 7, 7, 7, 7, 7, 7, 7, 7, 7, 7, 7, 7, 7, 7,
      7, 7, 7, 7, 7, 7, 7]
    case 41 => [15, 23, 28, 31, 34, 36, 38, 39, 41, 42, 43, 44, 45, 46, 47, 47, 49, 50, 51, 52, 53, 54, 55, 55, 57,
      58, 59, 60, 61, 62, 63, 63, 65, 66, 67, 68, 69, 70, 71, 71]
    case 82 => [20, 33, 41, 48, 53, 57, 61, 64, 66, 69, 71, 73, 75, 76, 78, 80, 82, 85, 87, 89, 91, 92, 94, 96, 98,
      101, 103, 105, 107, 108, 110, 112, 114, 117, 119, 121, 123, 124, 126, 128]
    case 123 => [23, 39, 51, 60, 67, 73, 79, 83, 87, 91, 94, 97, 100, 102, 105, 107, 111, 115, 118, 121, 124, 126,
      129, 131, 135, 139, 142, 145, 148, 150, 153, 155, 159, 163, 166, 169, 172, 174, 177, 179]
    case 164 => [28, 49, 65, 78, 89, 99, 107, 114, 120, 126, 132, 136, 141, 145, 149, 153, 159, 165, 171, 176, 180,
      185, 189, 192, 199, 205, 211, 216, 220, 225, 229, 232, 239, 245, 251]
    case 200 => [33, 58, 79, 97, 112, 125, 137, 148, 157, 166, 174, 182, 189, 195, 201, 207, 217, 227, 235, 243, 251]
    case 222 => [35, 63, 86, 106, 123, 139, 152, 165, 177, 187, 197, 206, 214, 222, 230, 237, 250]
    case 240 => [31, 55, 75, 91, 105, 117, 128, 138, 146, 154, 161, 168, 174, 180, 185, 190, 200, 208, 215, 222,
      229, 235, 240, 245, 255]
    case 266 => [36, 65, 89, 110, 128, 144, 159, 173, 185, 196, 207, 217, 226, 234, 242, 250]
    case 283 => [41, 74, 103, 128, 151, 172, 191, 209, 225, 241, 255]
    case 295 => [43, 79, 110, 138, 163, 186, 207, 227, 246]
    case 305 => [39, 71, 99, 123, 144, 164, 182, 198, 214, 228, 241, 253]
    case 318 => [44, 81, 113, 142, 168, 192, 214, 235, 255]
    case 328 => [49, 90, 127, 160, 191, 220, 247]
    case 336 => [51, 95, 134, 170, 203, 234]
    case 343 => [47, 87, 123, 155, 184, 212, 237]
    case 351 => [52, 97, 137, 174, 208, 240]
    case 358 => [57, 106, 151, 192, 231]
    case 364 => [59, 111, 158, 202, 243]
    case 370 => [55, 103, 147, 187, 224]
    case 376 => [60, 113, 161, 206, 248]
    case 382 => [65, 122, 175, 224]
    case 387 => [67, 127, 182, 234]
    case _ => []
  }

  /** `cache[cache[0]]`, the last entry. */
  function Top(index: int): int
  {
    var cache := CacheAt(index);
    if cache == [] then 0 else cache[|cache| - 1]
  }

  function TopAt(band: nat, lm: nat): int
    requires band < BANDS && lm <= MAX_LEVEL
  {
    Top(CACHE_INDEX[lm + 1][band])
  }

  /** The width of a band at the lowest level. */
  function Width(band: nat): nat
    requires band < BANDS
  {
    if EDGES[band] <= EDGES[band + 1] then EDGES[band + 1] - EDGES[band] else 0
  }

  /** Tables for a band of the mode. */
  ghost predicate TablesOf(t: Tables, band: nat)
    requires band < BANDS
  {
    t.logN == LOG_N[band] && forall lm: nat | lm <= MAX_LEVEL :: t.cacheMax(lm) == TopAt(band, lm)
  }

  // --- the tables suffice --------------------------------------------------------------

  /** A cache that ends in `top` is enough for a band of this width at this level. */
  predicate Fits(w: nat, logN: int, lm: nat, top: int)
  {
    SizeAt(w, lm) > 2 ==> top + 13 >= BitsNeeded(logN, SizeAt(w, lm), lm)
  }

  /** What the tables say about a band: its width, its `logN` and where its caches end. */
  ghost predicate Entries(band: nat, w: nat, logN: int, t0: int, t1: int, t2: int, t3: int)
    requires band < BANDS
  {
    && Width(band) == w && LOG_N[band] == logN
    && TopAt(band, 0) == t0 && TopAt(band, 1) == t1 && TopAt(band, 2) == t2 && TopAt(band, 3) == t3
  }

  /** The band's caches are enough at every level. */
  ghost predicate AllFit(band: nat)
    requires band < BANDS
  {
    forall lm: nat | lm <= MAX_LEVEL :: Fits(Width(band), LOG_N[band], lm, TopAt(band, lm))
  }

  /** One level of a band, with its size and its offset given. */
  lemma FitsAt(w: nat, logN: int, lm: nat, n: nat, offset: int, top: int)
    requires SizeAt(w, lm) == n && n % 2 == 0 && offset == (logN + (lm - 1) * 8) / 2 - 4
    requires top + 13 >= Max(logN + (lm - 1) * 8 + 36, (n - 1) * (4 - offset))
    ensures Fits(w, logN, lm, top)
  {
    NeededAt(logN, n, lm, offset);
  }

  lemma NeededAt(logN: int, n: nat, lm: int, offset: int)
    requires offset == (logN + (lm - 1) * 8) / 2 - 4 && n % 2 == 0
    ensures BitsNeeded(logN, n, lm) == Max(logN + (lm - 1) * 8 + 36, (n - 1) * (4 - offset))
  {
  }

  lemma AllFitBy(band: nat, w: nat, logN: int, t0: int, t1: int, t2: int, t3: int)
    requires band < BANDS && Entries(band, w, logN, t0, t1, t2, t3)
    requires Fits(w, logN, 0, t0) && Fits(w, logN, 1, t1) && Fits(w, logN, 2, t2) && Fits(w, logN, 3, t3)
    ensures AllFit(band)
  {
    forall lm: nat | lm <= MAX_LEVEL ensures Fits(Width(band), LOG_N[band], lm, TopAt(band, lm)) {
      match lm
      case 0 =>
      case 1 =>
      case 2 =>
      case 3 =>
    }
  }

  lemma Narrow(band: nat)
    requires band <= 7
    ensures Width(band) == 1 && LOG_N[band] == 0
    ensures CACHE_INDEX[1][band] == 0 && CACHE_INDEX[2][band] == 41 && CACHE_INDEX[3][band] == 123 && CACHE_INDEX[4][band] == 240
  {
  }

  lemma Bands0To7Entries(band: nat)
    requires band <= 7
    ensures Entries(band, 1, 0, 7, 71, 179, 255)
  {
    Narrow(band);
    assert Top(0) == 7 && Top(41) == 71 && Top(123) == 179 && Top(240) == 255;
  }

  lemma Bands0To7(band: nat)
    requires band <= 7
    ensures AllFit(band)
  {
    Bands0To7Entries(band);
    FitsAt(1, 0, 2, 4, 0, 179);
    FitsAt(1, 0, 3, 8, 4, 255);
    AllFitBy(band, 1, 0, 7, 71, 179, 255);
  }

  lemma Bands8To11Entries(band: nat)
    requires 8 <= band <= 11
    ensures Entries(band, 2, 8, 71, 179, 255, 253)
  {
    assert CACHE_INDEX[1][band] == 41 && CACHE_INDEX[2][band] == 123 && CACHE_INDEX[3][band] == 240 && CACHE_INDEX[4][band] == 305;
    assert Top(41) == 71 && Top(123) == 179 && Top(240) == 255 && Top(305) == 253;
  }

  lemma Bands8To11(band: nat)
    requires 8 <= band <= 11
    ensures AllFit(band)
  {
    Bands8To11Entries(band);
    FitsAt(2, 8, 1, 4, 0, 179);
    FitsAt(2, 8, 2, 8, 4, 255);
    FitsAt(2, 8, 3, 16, 8, 253);
    AllFitBy(band, 2, 8, 71, 179, 255, 253);
  }

  lemma Bands12To14Entries(band: nat)
    requires 12 <= band <= 14
    ensures Entries(band, 4, 16, 179, 255, 253, 237)
  {
    assert CACHE_INDEX[1][band] == 123 && CACHE_INDEX[2][band] == 240 && CACHE_INDEX[3][band] == 305 && CACHE_INDEX[4][band] == 343;
    assert Top(123) == 179 && Top(240) == 255 && Top(305) == 253 && Top(343) == 237;
  }

  lemma Bands12To14(band: nat)
    requires 12 <= band <= 14
    ensures AllFit(band)
  {
    Bands12To14Entries(band);
    FitsAt(4, 16, 0, 4, 0, 179);
    FitsAt(4, 16, 1, 8, 4, 255);
    FitsAt(4, 16, 2, 16, 8, 253);
    FitsAt(4, 16, 3, 32, 12, 237);
    AllFitBy(band, 4, 16, 179, 255, 253, 237);
  }

  lemma Bands15To16Entries(band: nat)
    requires 15 <= band <= 16
    ensures Entries(band, 6, 21, 251, 250, 255, 240)
  {
    assert CACHE_INDEX[1][band] == 164 && CACHE_INDEX[2][band] == 266 && CACHE_INDEX[3][band] == 318 && CACHE_INDEX[4][band] == 351;
    assert Top(164) == 251 && Top(266) == 250 && Top(318) == 255 && Top(351) == 240;
  }

  lemma Bands15To16(band: nat)
    requires 15 <= band <= 16
    ensures AllFit(band)
  {
    Bands15To16Entries(band);
    FitsAt(6, 21, 0, 6, 2, 251);
    FitsAt(6, 21, 1, 12, 6, 250);
    FitsAt(6, 21, 2, 24, 10, 255);
    FitsAt(6, 21, 3, 48, 14, 240);
    AllFitBy(band, 6, 21, 251, 250, 255, 240);
  }

  lemma Band17Entries(band: nat)
    requires band == 17
    ensures Entries(band, 8, 24, 255, 253, 237, 224)
  {
    assert CACHE_INDEX[1][band] == 240 && CACHE_INDEX[2][band] == 305 && CACHE_INDEX[3][band] == 343 && CACHE_INDEX[4][band] == 370;
    assert Top(240) == 255 && Top(305) == 253 && Top(343) == 237 && Top(370) == 224;
  }

  lemma Band17(band: nat)
    requires band == 17
    ensures AllFit(band)
  {
    Band17Entries(band);
    FitsAt(8, 24, 0, 8, 4, 255);
    FitsAt(8, 24, 1, 16, 8, 253);
    FitsAt(8, 24, 2, 32, 12, 237);
    FitsAt(8, 24, 3, 64, 16, 224);
    AllFitBy(band, 8, 24, 255, 253, 237, 224);
  }

  lemma Band18Entries(band: nat)
    requires band == 18
    ensures Entries(band, 12, 29, 250, 255, 240, 248)
  {
    assert CACHE_INDEX[1][band] == 266 && CACHE_INDEX[2][band] == 318 && CACHE_INDEX[3][band] == 351 && CACHE_INDEX[4][band] == 376;
    assert Top(266) == 250 && Top(318) == 255 && Top(351) == 240 && Top(376) == 248;
  }

  lemma Band18(band: nat)
    requires band == 18
    ensures AllFit(band)
  {
    Band18Entries(band);
    FitsAt(12, 29, 0, 12, 6, 250);
    FitsAt(12, 29, 1, 24, 10, 255);
    FitsAt(12, 29, 2, 48, 14, 240);
    FitsAt(12, 29, 3, 96, 18, 248);
    AllFitBy(band, 12, 29, 250, 255, 240, 248);
  }

  lemma Band19Entries(band: nat)
    requires band == 19
    ensures Entries(band, 18, 34, 255, 247, 231, 224)
  {
    assert CACHE_INDEX[1][band] == 283 && CACHE_INDEX[2][band] == 328 && CACHE_INDEX[3][band] == 358 && CACHE_INDEX[4][band] == 382;
    assert Top(283) == 255 && Top(328) == 247 && Top(358) == 231 && Top(382) == 224;
  }

  lemma Band19(band: nat)
    requires band == 19
    ensures AllFit(band)
  {
    Band19Entries(band);
    FitsAt(18, 34, 0, 18, 9, 255);
    FitsAt(18, 34, 1, 36, 13, 247);
    FitsAt(18, 34, 2, 72, 17, 231);
    FitsAt(18, 34, 3, 144, 21, 224);
    AllFitBy(band, 18, 34, 255, 247, 231, 224);
  }

  lemma Band20Entries(band: nat)
    requires band == 20
    ensures Entries(band, 22, 36, 246, 234, 243, 234)
  {
    assert CACHE_INDEX[1][band] == 295 && CACHE_INDEX[2][band] == 336 && CACHE_INDEX[3][band] == 364 && CACHE_INDEX[4][band] == 387;
    assert Top(295) == 246 && Top(336) == 234 && Top(364) == 243 && Top(387) == 234;
  }

  lemma Band20(band: nat)
    requires band == 20
    ensures AllFit(band)
  {
    Band20Entries(band);
    FitsAt(22, 36, 0, 22, 10, 246);
    FitsAt(22, 36, 1, 44, 14, 234);
    FitsAt(22, 36, 2, 88, 18, 243);
    FitsAt(22, 36, 3, 176, 22, 234);
    AllFitBy(band, 22, 36, 246, 234, 243, 234);
  }

  /** In every band of the mode a split leaves its angle at least half a bit. */
  lemma ModeSuffices(t: Tables, band: nat)
    requires band < BANDS && TablesOf(t, band)
    ensures TablesSuffice(t, Width(band), MAX_LEVEL)
  {
    if band <= 7 {
      Bands0To7(band);
    } else if band <= 11 {
      Bands8To11(band);
    } else if band <= 14 {
      Bands12To14(band);
    } else if band <= 16 {
      Bands15To16(band);
    } else if band <= 17 {
      Band17(band);
    } else if band <= 18 {
      Band18(band);
    } else if band <= 19 {
      Band19(band);
    } else if band <= 20 {
      Band20(band);
    }
    forall lm: nat | lm <= MAX_LEVEL && SizeAt(Width(band), lm) > 2
      ensures t.cacheMax(lm) + 13 >= BitsNeeded(t.logN, SizeAt(Width(band), lm), lm)
    {
      assert Fits(Width(band), LOG_N[band], lm, TopAt(band, lm));
    }
  }

  /**
   * In the built-in mode the decoder retraces the encoder: for every band, level, input, budget
   * and point of the stream, and whatever the angle measurement and the pulse search find.
   */
  lemma ModeRetraces(
    t: Tables, band: nat, theta: (seq<real>, seq<real>) -> nat, vector: (seq<real>, nat, nat) -> seq<int>, avoid: bool,
    log: seq<Symbol>, remaining: int, x: seq<real>, b: int, blocks: nat, lm: nat)
    requires band < BANDS && TablesOf(t, band) && lm <= MAX_LEVEL
    ensures Retraces(Celt(t), CeltSource(t, theta, vector, avoid), log, remaining, x, SizeAt(Width(band), lm), b, blocks, lm)
  {
    ModeSuffices(t, band);
    EnoughIffTablesSuffice(t, Width(band), MAX_LEVEL);
    CodedIffEnough(t, Width(band), MAX_LEVEL);
    CeltLawful(t, theta, vector, avoid);
    CodedRetraces(Celt(t), Width(band), MAX_LEVEL, CeltSource(t, theta, vector, avoid), log, remaining, x, SizeAt(Width(band), lm), b, blocks, lm);
  }
}
