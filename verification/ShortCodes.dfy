/** Random code generation with bounded retries, the custom-code validator, and the short URL. */
module ShortCodes {
  import opened Common
  import opened Base62

  /** The random choices behind one code: what the n-th draw from the alphabet picks. */
  type Draws = nat -> nat

  /** The first `length` symbols drawn. */
  function Drawn(draws: Draws, length: nat): (s: string)
    ensures |s| == length && Valid(s)
  {
    if length == 0 then [] else Drawn(draws, length - 1) + [SymbolOf(draws(length - 1) % BASE)]
  }

  lemma {:induction false} DrawnSymbol(draws: Draws, length: nat, i: nat)
    requires i < length
    ensures Drawn(draws, length)[i] == SymbolOf(draws(i) % BASE)
  {
    if i < length - 1 {
      DrawnSymbol(draws, length - 1, i);
    }
  }

  /** Symbol i is the one that draw i picks from the alphabet. */
  lemma DrawnAt(draws: Draws, length: nat, i: nat)
    requires i < length
    ensures |ALPHABET| == 62 && Drawn(draws, length)[i] == ALPHABET[draws(i) % 62]
  {
    DrawnSymbol(draws, length, i);
    AlphabetAt(draws(i) % BASE);
  }

  /** The choices that draw a given code. */
  function Choices(code: string): Draws
    requires Valid(code)
  {
    (i: nat) => if i < |code| && ValueOf(code[i]).Some? then ValueOf(code[i]).value else 0
  }

  /** Every code of every length is drawn by some choices. */
  lemma {:induction false} EveryCodeIsDrawn(code: string)
    requires Valid(code)
    ensures Drawn(Choices(code), |code|) == code
  {
    hide Drawn, ValueOf, SymbolOf;
    forall i: nat | i < |code| ensures Drawn(Choices(code), |code|)[i] == code[i] {
      DrawnSymbol(Choices(code), |code|, i);
      SymbolOfValue(code[i]);
    }
  }

  lemma SymbolOfValue(c: char)
    requires ValueOf(c).Some?
    ensures ValueOf(c).value < BASE && SymbolOf(ValueOf(c).value) == c
  {
  }

  /** None stands for the ValueError on a length that is not positive. */
  method GenerateShortCode(draws: Draws, length: int) returns (code: Option<string>)
    ensures code == if length <= 0 then None else Some(Drawn(draws, length))
    ensures code.Some? ==> |code.value| == length && |ALPHABET| == 62
    ensures code.Some? ==> forall i: nat :: i < length ==> code.value[i] == ALPHABET[draws(i) % 62]
  {
    if length <= 0 {
      return None;
    }
    forall i: nat | i < length ensures |ALPHABET| == 62 && Drawn(draws, length)[i] == ALPHABET[draws(i) % 62] {
      DrawnAt(draws, length, i);
    }
    var s := "";
    for i := 0 to length
      invariant s == Drawn(draws, i)
    {
      AlphabetAt(draws(i) % BASE);
      s := s + [ALPHABET[draws(i) % BASE]];
    }
    code := Some(s);
  }

  datatype Generated = Code(code: string) | Exhausted | BadLength

  /**
   draws(k) are the choices of attempt k, and taken(k, code) is what the caller's existence
   check answers on attempt k. The code returned is the first candidate found free; failure
   means every one of max_retries candidates was taken; and no candidate beyond the first free
   one is ever asked about.
   */
  method GenerateUniqueShortCode(draws: nat -> Draws, taken: (nat, string) -> bool, length: int, maxRetries: nat)
    returns (r: Generated, asked: nat)
    ensures r.BadLength? <==> length <= 0 < maxRetries
    ensures r.Code? ==> 0 < asked <= maxRetries && 0 < length
    ensures r.Code? ==> r.code == Drawn(draws(asked - 1), length) && !taken(asked - 1, r.code)
    ensures r.Code? ==> forall k: nat :: k < asked - 1 ==> taken(k, Drawn(draws(k), length))
    ensures r.Exhausted? ==> asked == maxRetries
    ensures r.Exhausted? ==> forall k: nat :: k < maxRetries ==> 0 < length && taken(k, Drawn(draws(k), length))
  {
    hide Drawn;
    asked := 0;
    while asked < maxRetries
      invariant asked <= maxRetries
      invariant 0 < asked ==> 0 < length
      invariant forall k: nat :: k < asked ==> taken(k, Drawn(draws(k), length))
    {
      var candidate := GenerateShortCode(draws(asked), length);
      if candidate.None? {
        return BadLength, asked;
      }
      asked := asked + 1;
      if !taken(asked - 1, candidate.value) {
        return Code(candidate.value), asked;
      }
    }
    r := Exhausted;
  }

  /******* Custom codes *******/

  const MIN_LENGTH := 4
  const MAX_LENGTH := 10

  datatype Validation = Accepted | WrongLength | Foreign(characters: set<char>)

  function Base62Chars(): (cs: set<char>)
    ensures forall c :: c in cs <==> ValueOf(c).Some?
  {
    assert forall c :: c in ALPHABET <==> ValueOf(c).Some? by {
      forall c ensures c in ALPHABET <==> ValueOf(c).Some? {
        ValueIsIndex(c);
      }
    }
    set c | c in ALPHABET
  }

  function ValidateCustomCode(code: string): Validation {
    if !(MIN_LENGTH <= |code| <= MAX_LENGTH) then WrongLength
    else
      var invalid := (set c | c in code) - Base62Chars();
      if invalid != {} then Foreign(invalid) else Accepted
  }

  /**
   The validator accepts exactly the Base62 strings of 4 to 10 symbols, and otherwise names
   exactly the characters that are not in the alphabet.
   */
  lemma AcceptedAreCodes(code: string)
    ensures ValidateCustomCode(code).Accepted? <==> 4 <= |code| <= 10 && Valid(code)
    ensures ValidateCustomCode(code).WrongLength? <==> |code| < 4 || 10 < |code|
    ensures ValidateCustomCode(code).Foreign? ==>
              forall c :: c in ValidateCustomCode(code).characters <==> c in code && ValueOf(c).None?
  {
    var invalid := (set c | c in code) - Base62Chars();
    if Valid(code) {
      assert invalid == {};
    } else {
      var i :| 0 <= i < |code| && ValueOf(code[i]).None?;
      assert code[i] in invalid;
    }
  }

  /** Custom and generated codes are interchangeable for every configurable length. */
  lemma GeneratedAreAccepted(draws: Draws, length: nat)
    requires 4 <= length <= 10
    ensures ValidateCustomCode(Drawn(draws, length)).Accepted?
  {
    AcceptedAreCodes(Drawn(draws, length));
  }

  /******* The short URL *******/

  /** rstrip('/') */
  function RStrip(s: string): string {
    if s != [] && s[|s| - 1] == '/' then RStrip(s[..|s| - 1]) else s
  }

  function ShortUrl(baseUrl: string, code: string): string {
    RStrip(baseUrl) + "/" + code
  }

  /** rstrip removes exactly the trailing slashes. */
  lemma {:induction false} RStripRemovesSlashes(s: string)
    ensures RStrip(s) <= s
    ensures forall i :: |RStrip(s)| <= i < |s| ==> s[i] == '/'
    ensures RStrip(s) != [] ==> RStrip(s)[|RStrip(s)| - 1] != '/'
  {
    if s != [] && s[|s| - 1] == '/' {
      RStripRemovesSlashes(s[..|s| - 1]);
    }
  }

  /** The short URL: the base URL up to its trailing slashes, one slash, and the code. */
  lemma {:induction false} ShortUrlIs(b: string, c: string, k: nat)
    requires k <= |b| && forall i :: k <= i < |b| ==> b[i] == '/'
    requires k == 0 || b[k - 1] != '/'
    ensures ShortUrl(b, c) == b[..k] + "/" + c
  {
    RStripRemovesSlashes(b);
    assert |RStrip(b)| == k;
  }

  /**
   A short URL determines its code, and the base URL up to trailing slashes; trailing slashes
   on the base URL make no difference.
   */
  lemma ShortUrlDetermines(b1: string, c1: string, b2: string, c2: string)
    requires Valid(c1) && Valid(c2)
    ensures ShortUrl(b1, c1) == ShortUrl(b2, c2) <==> RStrip(b1) == RStrip(b2) && c1 == c2
    ensures ShortUrl(b1 + "/", c1) == ShortUrl(b1, c1)
  {
    assert (b1 + "/")[..|b1|] == b1;
    var r1, r2 := RStrip(b1), RStrip(b2);
    if r1 + "/" + c1 == r2 + "/" + c2 {
      if |c1| < |c2| {
        SlashInside(r1, c1, r2, c2);
      } else if |c2| < |c1| {
        SlashInside(r2, c2, r1, c1);
      }
      Parts(r1, c1);
      Parts(r2, c2);
    }
  }

  lemma Parts(r: string, c: string)
    ensures (r + "/" + c)[..|r|] == r && (r + "/" + c)[|r| + 1..] == c && |r + "/" + c| == |r| + 1 + |c|
  {
  }

  /** A shorter code would put a slash inside the longer one. */
  lemma SlashInside(r1: string, c1: string, r2: string, c2: string)
    requires Valid(c2) && |c1| < |c2|
    ensures r1 + "/" + c1 != r2 + "/" + c2
  {
    var u1, u2 := r1 + "/" + c1, r2 + "/" + c2;
    if |u1| == |u2| {
      assert u1[|r1|] == '/';
      assert u2[|r1|] == c2[|r1| - |r2| - 1];
    }
  }
}
