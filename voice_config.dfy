/** The voices the server offers (`server/src/kokoro/voice_config.rs`):
    the 28 English voices of the Kokoro model, their configurations and
    the filters over the full list. */
module VoiceConfig {
  import opened Wrappers
  import opened Text

  datatype Gender = Female | Male

  datatype Language = AmericanEnglish | BritishEnglish

  /** `VoiceConfig`: the id passed to the model, a display name, gender,
      language and a description. */
  datatype VoiceConfig = VoiceConfig(id: string, name: string, gender: Gender, language: Language, description: string)

  /** `Voice`. */
  datatype Voice
    = AmericanFemaleAlloy
    | AmericanFemaleAoede
    | AmericanFemaleBella
    | AmericanFemaleHeart
    | AmericanFemaleJessica
    | AmericanFemaleKore
    | AmericanFemaleNicole
    | AmericanFemaleNova
    | AmericanFemaleRiver
    | AmericanFemaleSarah
    | AmericanFemaleSky
    | AmericanMaleAdam
    | AmericanMaleEcho
    | AmericanMaleEric
    | AmericanMaleFenrir
    | AmericanMaleLiam
    | AmericanMaleMichael
    | AmericanMaleOnyx
    | AmericanMalePuck
    | AmericanMaleSanta
    | BritishFemaleAlice
    | BritishFemaleEmma
    | BritishFemaleIsabella
    | BritishFemaleLily
    | BritishMaleDaniel
    | BritishMaleFable
    | BritishMaleGeorge
    | BritishMaleLewis

  /** `Voice::config`. The source writes each voice's record out in one
      table; here the same table is kept field by field. */
  function Config(v: Voice): VoiceConfig {
    VoiceConfig(Id(v), Name(v), GenderOf(v), LanguageOf(v), Description(v))
  }

  /** `Voice::id`, the `id` of the configuration: the id the model knows
      the voice by. */
  function Id(v: Voice): string {
    match v
    case AmericanFemaleAlloy => "af_alloy"
    case AmericanFemaleAoede => "af_aoede"
    case AmericanFemaleBella => "af_bella"
    case AmericanFemaleHeart => "af_heart"
    case AmericanFemaleJessica => "af_jessica"
    case AmericanFemaleKore => "af_kore"
    case AmericanFemaleNicole => "af_nicole"
    case AmericanFemaleNova => "af_nova"
    case AmericanFemaleRiver => "af_river"
    case AmericanFemaleSarah => "af_sarah"
    case AmericanFemaleSky => "af_sky"
    case AmericanMaleAdam => "am_adam"
    case AmericanMaleEcho => "am_echo"
    case AmericanMaleEric => "am_eric"
    case AmericanMaleFenrir => "am_fenrir"
    case AmericanMaleLiam => "am_liam"
    case AmericanMaleMichael => "am_michael"
    case AmericanMaleOnyx => "am_onyx"
    case AmericanMalePuck => "am_puck"
    case AmericanMaleSanta => "am_santa"
    case BritishFemaleAlice => "bf_alice"
    case BritishFemaleEmma => "bf_emma"
    case BritishFemaleIsabella => "bf_isabella"
    case BritishFemaleLily => "bf_lily"
    case BritishMaleDaniel => "bm_daniel"
    case BritishMaleFable => "bm_fable"
    case BritishMaleGeorge => "bm_george"
    case BritishMaleLewis => "bm_lewis"
  }

  function Name(v: Voice): string {
    match v
    case AmericanFemaleAlloy => "Alloy"
    case AmericanFemaleAoede => "Aoede"
    case AmericanFemaleBella => "Bella"
    case AmericanFemaleHeart => "Heart"
    case AmericanFemaleJessica => "Jessica"
    case AmericanFemaleKore => "Kore"
    case AmericanFemaleNicole => "Nicole"
    case AmericanFemaleNova => "Nova"
    case AmericanFemaleRiver => "River"
    case AmericanFemaleSarah => "Sarah"
    case AmericanFemaleSky => "Sky"
    case AmericanMaleAdam => "Adam"
    case AmericanMaleEcho => "Echo"
    case AmericanMaleEric => "Eric"
    case AmericanMaleFenrir => "Fenrir"
    case AmericanMaleLiam => "Liam"
    case AmericanMaleMichael => "Michael"
    case AmericanMaleOnyx => "Onyx"
    case AmericanMalePuck => "Puck"
    case AmericanMaleSanta => "Santa"
    case BritishFemaleAlice => "Alice"
    case BritishFemaleEmma => "Emma"
    case BritishFemaleIsabella => "Isabella"
    case BritishFemaleLily => "Lily"
    case BritishMaleDaniel => "Daniel"
    case BritishMaleFable => "Fable"
    case BritishMaleGeorge => "George"
    case BritishMaleLewis => "Lewis"
  }

  function LanguageOf(v: Voice): Language {
    match v
    case AmericanFemaleAlloy
      | AmericanFemaleAoede
      | AmericanFemaleBella
      | AmericanFemaleHeart
      | AmericanFemaleJessica
      | AmericanFemaleKore
      | AmericanFemaleNicole
      | AmericanFemaleNova
      | AmericanFemaleRiver
      | AmericanFemaleSarah
      | AmericanFemaleSky
      | AmericanMaleAdam
      | AmericanMaleEcho
      | AmericanMaleEric
      | AmericanMaleFenrir
      | AmericanMaleLiam
      | AmericanMaleMichael
      | AmericanMaleOnyx
      | AmericanMalePuck
      | AmericanMaleSanta => AmericanEnglish
    case BritishFemaleAlice
      | BritishFemaleEmma
      | BritishFemaleIsabella
      | BritishFemaleLily
      | BritishMaleDaniel
      | BritishMaleFable
      | BritishMaleGeorge
      | BritishMaleLewis => BritishEnglish
  }

  function GenderOf(v: Voice): Gender {
    match v
    case AmericanFemaleAlloy
      | AmericanFemaleAoede
      | AmericanFemaleBella
      | AmericanFemaleHeart
      | AmericanFemaleJessica
      | AmericanFemaleKore
      | AmericanFemaleNicole
      | AmericanFemaleNova
      | AmericanFemaleRiver
      | AmericanFemaleSarah
      | AmericanFemaleSky
      | BritishFemaleAlice
      | BritishFemaleEmma
      | BritishFemaleIsabella
      | BritishFemaleLily => Female
    case AmericanMaleAdam
      | AmericanMaleEcho
      | AmericanMaleEric
      | AmericanMaleFenrir
      | AmericanMaleLiam
      | AmericanMaleMichael
      | AmericanMaleOnyx
      | AmericanMalePuck
      | AmericanMaleSanta
      | BritishMaleDaniel
      | BritishMaleFable
      | BritishMaleGeorge
      | BritishMaleLewis => Male
  }

  function LanguageWord(l: Language): string {
    match l
    case AmericanEnglish => "American"
    case BritishEnglish => "British"
  }

  function GenderWord(g: Gender): string {
    match g
    case Female => "female"
    case Male => "male"
  }

  /** Every description reads "<language> <gender> voice - <name>". */
  function Description(v: Voice): string {
    LanguageWord(LanguageOf(v)) + " " + GenderWord(GenderOf(v)) + " voice - " + Name(v)
  }

  /** `Voice::all`. */
  function All(): seq<Voice> {
    [
      AmericanFemaleAlloy,
      AmericanFemaleAoede,
      AmericanFemaleBella,
      AmericanFemaleHeart,
      AmericanFemaleJessica,
      AmericanFemaleKore,
      AmericanFemaleNicole,
      AmericanFemaleNova,
      AmericanFemaleRiver,
      AmericanFemaleSarah,
      AmericanFemaleSky,
      AmericanMaleAdam,
      AmericanMaleEcho,
      AmericanMaleEric,
      AmericanMaleFenrir,
      AmericanMaleLiam,
      AmericanMaleMichael,
      AmericanMaleOnyx,
      AmericanMalePuck,
      AmericanMaleSanta,
      BritishFemaleAlice,
      BritishFemaleEmma,
      BritishFemaleIsabella,
      BritishFemaleLily,
      BritishMaleDaniel,
      BritishMaleFable,
      BritishMaleGeorge,
      BritishMaleLewis
    ]
  }

  /** The position of a voice in `All`. */
  function Index(v: Voice): nat {
    match v
    case AmericanFemaleAlloy => 0
    case AmericanFemaleAoede => 1
    case AmericanFemaleBella => 2
    case AmericanFemaleHeart => 3
    case AmericanFemaleJessica => 4
    case AmericanFemaleKore => 5
    case AmericanFemaleNicole => 6
    case AmericanFemaleNova => 7
    case AmericanFemaleRiver => 8
    case AmericanFemaleSarah => 9
    case AmericanFemaleSky => 10
    case AmericanMaleAdam => 11
    case AmericanMaleEcho => 12
    case AmericanMaleEric => 13
    case AmericanMaleFenrir => 14
    case AmericanMaleLiam => 15
    case AmericanMaleMichael => 16
    case AmericanMaleOnyx => 17
    case AmericanMalePuck => 18
    case AmericanMaleSanta => 19
    case BritishFemaleAlice => 20
    case BritishFemaleEmma => 21
    case BritishFemaleIsabella => 22
    case BritishFemaleLily => 23
    case BritishMaleDaniel => 24
    case BritishMaleFable => 25
    case BritishMaleGeorge => 26
    case BritishMaleLewis => 27
  }

  /** `All` lists 28 voices and every voice exactly once, at its index. */
  lemma AllSpec()
    ensures |All()| == 28
    ensures forall v :: Index(v) < 28 && All()[Index(v)] == v
    ensures forall i :: 0 <= i < |All()| ==> Index(All()[i]) == i
    ensures forall i, j :: 0 <= i < j < |All()| ==> All()[i] != All()[j]
  {
    forall v ensures Index(v) < 28 && All()[Index(v)] == v {
      AtIndex(v);
    }
    forall i | 0 <= i < |All()| ensures Index(All()[i]) == i {
      IndexAt(i);
    }
  }

  /** Each voice sits in `All` at its index. */
  lemma AtIndex(v: Voice)
    ensures Index(v) < 28 && All()[Index(v)] == v
  {
    match v
    case AmericanFemaleAlloy =>
    case AmericanFemaleAoede =>
    case AmericanFemaleBella =>
    case AmericanFemaleHeart =>
    case AmericanFemaleJessica =>
    case AmericanFemaleKore =>
    case AmericanFemaleNicole =>
    case AmericanFemaleNova =>
    case AmericanFemaleRiver =>
    case AmericanFemaleSarah =>
    case AmericanFemaleSky =>
    case AmericanMaleAdam =>
    case AmericanMaleEcho =>
    case AmericanMaleEric =>
    case AmericanMaleFenrir =>
    case AmericanMaleLiam =>
    case AmericanMaleMichael =>
    case AmericanMaleOnyx =>
    case AmericanMalePuck =>
    case AmericanMaleSanta =>
    case BritishFemaleAlice =>
    case BritishFemaleEmma =>
    case BritishFemaleIsabella =>
    case BritishFemaleLily =>
    case BritishMaleDaniel =>
    case BritishMaleFable =>
    case BritishMaleGeorge =>
    case BritishMaleLewis =>
  }

  /** The voice at each position of `All` has that position as its index. */
  lemma IndexAt(i: nat)
    requires i < 28
    ensures Index(All()[i]) == i
  {
    var all := All();
    if i == 0 { assert all[0] == AmericanFemaleAlloy;
    } else if i == 1 { assert all[1] == AmericanFemaleAoede;
    } else if i == 2 { assert all[2] == AmericanFemaleBella;
    } else if i == 3 { assert all[3] == AmericanFemaleHeart;
    } else if i == 4 { assert all[4] == AmericanFemaleJessica;
    } else if i == 5 { assert all[5] == AmericanFemaleKore;
    } else if i == 6 { assert all[6] == AmericanFemaleNicole;
    } else if i == 7 { assert all[7] == AmericanFemaleNova;
    } else if i == 8 { assert all[8] == AmericanFemaleRiver;
    } else if i == 9 { assert all[9] == AmericanFemaleSarah;
    } else if i == 10 { assert all[10] == AmericanFemaleSky;
    } else if i == 11 { assert all[11] == AmericanMaleAdam;
    } else if i == 12 { assert all[12] == AmericanMaleEcho;
    } else if i == 13 { assert all[13] == AmericanMaleEric;
    } else if i == 14 { assert all[14] == AmericanMaleFenrir;
    } else if i == 15 { assert all[15] == AmericanMaleLiam;
    } else if i == 16 { assert all[16] == AmericanMaleMichael;
    } else if i == 17 { assert all[17] == AmericanMaleOnyx;
    } else if i == 18 { assert all[18] == AmericanMalePuck;
    } else if i == 19 { assert all[19] == AmericanMaleSanta;
    } else if i == 20 { assert all[20] == BritishFemaleAlice;
    } else if i == 21 { assert all[21] == BritishFemaleEmma;
    } else if i == 22 { assert all[22] == BritishFemaleIsabella;
    } else if i == 23 { assert all[23] == BritishFemaleLily;
    } else if i == 24 { assert all[24] == BritishMaleDaniel;
    } else if i == 25 { assert all[25] == BritishMaleFable;
    } else if i == 26 { assert all[26] == BritishMaleGeorge;
    }
  }

  /** The voice with a given id, if any. Ids already differ in their
      first two letters together with the first two letters of the name,
      so the lookup goes by those four characters and then checks the
      whole id. */
  function FromId(id: string): (r: Option<Voice>)
    ensures r.Some? ==> Id(r.value) == id
  {
    if |id| < 5 then None
    else
      var candidate := ByKey(id[0], id[1], id[3], id[4]);
      if candidate.Some? && Id(candidate.value) == id then candidate else None
  }

  function ByKey(c0: char, c1: char, c3: char, c4: char): Option<Voice> {
    match (c0, c1, c3, c4)
    case ('a', 'f', 'a', 'l') => Some(AmericanFemaleAlloy)
    case ('a', 'f', 'a', 'o') => Some(AmericanFemaleAoede)
    case ('a', 'f', 'b', 'e') => Some(AmericanFemaleBella)
    case ('a', 'f', 'h', 'e') => Some(AmericanFemaleHeart)
    case ('a', 'f', 'j', 'e') => Some(AmericanFemaleJessica)
    case ('a', 'f', 'k', 'o') => Some(AmericanFemaleKore)
    case ('a', 'f', 'n', 'i') => Some(AmericanFemaleNicole)
    case ('a', 'f', 'n', 'o') => Some(AmericanFemaleNova)
    case ('a', 'f', 'r', 'i') => Some(AmericanFemaleRiver)
    case ('a', 'f', 's', 'a') => Some(AmericanFemaleSarah)
    case ('a', 'f', 's', 'k') => Some(AmericanFemaleSky)
    case ('a', 'm', 'a', 'd') => Some(AmericanMaleAdam)
    case ('a', 'm', 'e', 'c') => Some(AmericanMaleEcho)
    case ('a', 'm', 'e', 'r') => Some(AmericanMaleEric)
    case ('a', 'm', 'f', 'e') => Some(AmericanMaleFenrir)
    case ('a', 'm', 'l', 'i') => Some(AmericanMaleLiam)
    case ('a', 'm', 'm', 'i') => Some(AmericanMaleMichael)
    case ('a', 'm', 'o', 'n') => Some(AmericanMaleOnyx)
    case ('a', 'm', 'p', 'u') => Some(AmericanMalePuck)
    case ('a', 'm', 's', 'a') => Some(AmericanMaleSanta)
    case ('b', 'f', 'a', 'l') => Some(BritishFemaleAlice)
    case ('b', 'f', 'e', 'm') => Some(BritishFemaleEmma)
    case ('b', 'f', 'i', 's') => Some(BritishFemaleIsabella)
    case ('b', 'f', 'l', 'i') => Some(BritishFemaleLily)
    case ('b', 'm', 'd', 'a') => Some(BritishMaleDaniel)
    case ('b', 'm', 'f', 'a') => Some(BritishMaleFable)
    case ('b', 'm', 'g', 'e') => Some(BritishMaleGeorge)
    case ('b', 'm', 'l', 'e') => Some(BritishMaleLewis)
    case _ => None
  }

  /** Every id names its voice, so ids are pairwise distinct. */
  lemma IdsDistinct(v: Voice, w: Voice)
    ensures Id(v) == Id(w) ==> v == w
  {
    IdNames(v);
    IdNames(w);
  }

  /** Looking up a voice's id gives the voice back. */
  lemma IdNames(v: Voice)
    ensures FromId(Id(v)) == Some(v)
  {
    match (LanguageOf(v), GenderOf(v))
    case (AmericanEnglish, Female) => IdNamesIn(v, AmericanEnglish, Female);
    case (AmericanEnglish, Male) => IdNamesIn(v, AmericanEnglish, Male);
    case (BritishEnglish, Female) => IdNamesIn(v, BritishEnglish, Female);
    case (BritishEnglish, Male) => IdNamesIn(v, BritishEnglish, Male);
  }

  /** The same, one group of voices at a time. */
  lemma IdNamesIn(v: Voice, l: Language, g: Gender)
    requires LanguageOf(v) == l && GenderOf(v) == g
    ensures FromId(Id(v)) == Some(v)
  {
  }

  /** The letter of a language and of a gender in a voice id. */
  function LanguageLetter(l: Language): char {
    match l
    case AmericanEnglish => 'a'
    case BritishEnglish => 'b'
  }

  function GenderLetter(g: Gender): char {
    match g
    case Female => 'f'
    case Male => 'm'
  }

  /** Every id follows `{language}{gender}_{name}` with the letters of the
      voice's own language and gender and the display name in lower case. */
  lemma IdPattern(v: Voice)
    ensures |Id(v)| > 3
    ensures Id(v)[0] == LanguageLetter(LanguageOf(v))
    ensures Id(v)[1] == GenderLetter(GenderOf(v))
    ensures Id(v)[2] == '_'
    ensures Id(v)[3..] == ToLower(Name(v))
  {
    IdEndsWithName(v);
    assert Id(v)[3..] == ToLower(Name(v));
  }

  lemma IdEndsWithName(v: Voice)
    ensures |Id(v)| >= 3 && Id(v)[3..] == ToLower(Name(v))
  {
    match (LanguageOf(v), GenderOf(v))
    case (AmericanEnglish, Female) =>
      if v in {AmericanFemaleAlloy, AmericanFemaleAoede, AmericanFemaleBella, AmericanFemaleHeart,
               AmericanFemaleJessica, AmericanFemaleKore} {
        IdEndsWithNameFirstFemales(v);
      } else {
        IdEndsWithNameLastFemales(v);
      }
    case (AmericanEnglish, Male) => IdEndsWithNameAmericanMale(v);
    case (BritishEnglish, _) => IdEndsWithNameBritish(v);
  }

  /** The same, a few voices at a time. */
  lemma IdEndsWithNameFirstFemales(v: Voice)
    requires v in {AmericanFemaleAlloy, AmericanFemaleAoede, AmericanFemaleBella, AmericanFemaleHeart,
                   AmericanFemaleJessica, AmericanFemaleKore}
    ensures |Id(v)| >= 3 && Id(v)[3..] == ToLower(Name(v))
  {
    var name, rest := Name(v), Id(v)[3..];
    assert |rest| == |name|;
    forall i | 0 <= i < |name| ensures rest[i] == AsciiLower(name[i]) {
    }
  }

  lemma IdEndsWithNameLastFemales(v: Voice)
    requires LanguageOf(v) == AmericanEnglish && GenderOf(v) == Female
    requires v !in {AmericanFemaleAlloy, AmericanFemaleAoede, AmericanFemaleBella, AmericanFemaleHeart,
                    AmericanFemaleJessica, AmericanFemaleKore}
    ensures |Id(v)| >= 3 && Id(v)[3..] == ToLower(Name(v))
  {
    var name, rest := Name(v), Id(v)[3..];
    assert |rest| == |name|;
    forall i | 0 <= i < |name| ensures rest[i] == AsciiLower(name[i]) {
    }
  }

  lemma IdEndsWithNameAmericanMale(v: Voice)
    requires LanguageOf(v) == AmericanEnglish && GenderOf(v) == Male
    ensures |Id(v)| >= 3 && Id(v)[3..] == ToLower(Name(v))
  {
    var name, rest := Name(v), Id(v)[3..];
    assert |rest| == |name|;
    forall i | 0 <= i < |name| ensures rest[i] == AsciiLower(name[i]) {
    }
  }

  lemma IdEndsWithNameBritish(v: Voice)
    requires LanguageOf(v) == BritishEnglish
    ensures |Id(v)| >= 3 && Id(v)[3..] == ToLower(Name(v))
  {
    var name, rest := Name(v), Id(v)[3..];
    assert |rest| == |name|;
    forall i | 0 <= i < |name| ensures rest[i] == AsciiLower(name[i]) {
    }
  }

  /** The voices of `vs` that `keep` accepts, in their order in `vs`. */
  function Filter(vs: seq<Voice>, keep: Voice -> bool): seq<Voice> {
    if vs == [] then []
    else Filter(vs[..|vs| - 1], keep) + (if keep(vs[|vs| - 1]) then [vs[|vs| - 1]] else [])
  }

  /** The tests of `by_language`, `by_gender` and
      `by_language_and_gender`. */
  function HasLanguage(language: Language): Voice -> bool {
    v => Config(v).language == language
  }

  function HasGender(gender: Gender): Voice -> bool {
    v => Config(v).gender == gender
  }

  function HasBoth(language: Language, gender: Gender): Voice -> bool {
    v => Config(v).language == language && Config(v).gender == gender
  }

  /** `by_language`, `by_gender` and `by_language_and_gender`. */
  function ByLanguage(language: Language): seq<Voice> {
    Filter(All(), HasLanguage(language))
  }

  function ByGender(gender: Gender): seq<Voice> {
    Filter(All(), HasGender(gender))
  }

  function ByLanguageAndGender(language: Language, gender: Gender): seq<Voice> {
    Filter(All(), HasBoth(language, gender))
  }

  /** The voices of one language and gender, as the enum groups them. */
  function Group(language: Language, gender: Gender): seq<Voice> {
    match (language, gender)
    case (AmericanEnglish, Female) => [AmericanFemaleAlloy, AmericanFemaleAoede, AmericanFemaleBella, AmericanFemaleHeart, AmericanFemaleJessica, AmericanFemaleKore, AmericanFemaleNicole, AmericanFemaleNova, AmericanFemaleRiver, AmericanFemaleSarah, AmericanFemaleSky]
    case (AmericanEnglish, Male) => [AmericanMaleAdam, AmericanMaleEcho, AmericanMaleEric, AmericanMaleFenrir, AmericanMaleLiam, AmericanMaleMichael, AmericanMaleOnyx, AmericanMalePuck, AmericanMaleSanta]
    case (BritishEnglish, Female) => [BritishFemaleAlice, BritishFemaleEmma, BritishFemaleIsabella, BritishFemaleLily]
    case (BritishEnglish, Male) => [BritishMaleDaniel, BritishMaleFable, BritishMaleGeorge, BritishMaleLewis]
  }

  /** A voice is in `vs` filtered by `keep` exactly when it is in `vs` and
      `keep` accepts it. */
  lemma {:induction false} FilterMembers(vs: seq<Voice>, keep: Voice -> bool)
    ensures forall v :: v in Filter(vs, keep) <==> v in vs && keep(v)
  {
    if vs != [] {
      var init := vs[..|vs| - 1];
      FilterMembers(init, keep);
      assert vs == init + [vs[|vs| - 1]];
    }
  }

  /** Filtering keeps order: filtering a concatenation concatenates the
      filtered parts. */
  lemma {:induction false} FilterConcat(a: seq<Voice>, b: seq<Voice>, keep: Voice -> bool)
    ensures Filter(a + b, keep) == Filter(a, keep) + Filter(b, keep)
    decreases |b|
  {
    if b == [] {
      assert a + b == a;
    } else {
      var init := b[..|b| - 1];
      FilterConcat(a, init, keep);
      assert (a + b)[..|a + b| - 1] == a + init;
    }
  }

  lemma {:induction false} FilterKeepsAll(vs: seq<Voice>, keep: Voice -> bool)
    requires forall v :: v in vs ==> keep(v)
    ensures Filter(vs, keep) == vs
  {
    if vs != [] {
      FilterKeepsAll(vs[..|vs| - 1], keep);
    }
  }

  lemma {:induction false} FilterKeepsNone(vs: seq<Voice>, keep: Voice -> bool)
    requires forall v :: v in vs ==> !keep(v)
    ensures Filter(vs, keep) == []
  {
    if vs != [] {
      FilterKeepsNone(vs[..|vs| - 1], keep);
    }
  }

  /** `All` lists the four groups one after another, and each group holds
      exactly the voices of its language and gender. */
  lemma GroupsSpec()
    ensures All() == Group(AmericanEnglish, Female) + Group(AmericanEnglish, Male)
      + Group(BritishEnglish, Female) + Group(BritishEnglish, Male)
    ensures |Group(AmericanEnglish, Female)| == 11 && |Group(AmericanEnglish, Male)| == 9
    ensures |Group(BritishEnglish, Female)| == 4 && |Group(BritishEnglish, Male)| == 4
  {
  }

  /** Each group holds only voices of its own language and gender. */
  lemma GroupClass(l: Language, g: Gender)
    ensures forall v :: v in Group(l, g) ==> LanguageOf(v) == l && GenderOf(v) == g
  {
  }

  /** Filtering one group, whose voices `keep` all accept or all reject. */
  lemma FilterGroup(l: Language, g: Gender, keep: Voice -> bool, b: bool)
    requires forall v :: LanguageOf(v) == l && GenderOf(v) == g ==> keep(v) == b
    ensures Filter(Group(l, g), keep) == if b then Group(l, g) else []
  {
    GroupClass(l, g);
    if b {
      FilterKeepsAll(Group(l, g), keep);
    } else {
      FilterKeepsNone(Group(l, g), keep);
    }
  }

  /** Filtering `All` filters each group in turn. */
  lemma FilterAll(keep: Voice -> bool)
    ensures Filter(All(), keep) == Filter(Group(AmericanEnglish, Female), keep) + Filter(Group(AmericanEnglish, Male), keep)
      + Filter(Group(BritishEnglish, Female), keep) + Filter(Group(BritishEnglish, Male), keep)
  {
    GroupsSpec();
    var af, am, bf, bm := Group(AmericanEnglish, Female), Group(AmericanEnglish, Male), Group(BritishEnglish, Female), Group(BritishEnglish, Male);
    FilterConcat(af + am + bf, bm, keep);
    FilterConcat(af + am, bf, keep);
    FilterConcat(af, am, keep);
  }

  /** Filtering `All` when exactly the groups marked are kept. */
  lemma FilterPicks(keep: Voice -> bool, af: bool, am: bool, bf: bool, bm: bool)
    requires forall v :: keep(v) == match (LanguageOf(v), GenderOf(v))
      case (AmericanEnglish, Female) => af
      case (AmericanEnglish, Male) => am
      case (BritishEnglish, Female) => bf
      case (BritishEnglish, Male) => bm
    ensures Filter(All(), keep) == Picked(Group(AmericanEnglish, Female), af) + Picked(Group(AmericanEnglish, Male), am)
      + Picked(Group(BritishEnglish, Female), bf) + Picked(Group(BritishEnglish, Male), bm)
  {
    FilterAll(keep);
    FilterGroup(AmericanEnglish, Female, keep, af);
    FilterGroup(AmericanEnglish, Male, keep, am);
    FilterGroup(BritishEnglish, Female, keep, bf);
    FilterGroup(BritishEnglish, Male, keep, bm);
  }

  /** A group when it is kept, nothing otherwise. */
  function Picked(group: seq<Voice>, kept: bool): seq<Voice> {
    if kept then group else []
  }

  lemma PickedTwo(a: seq<Voice>, b: seq<Voice>, c: seq<Voice>, d: seq<Voice>)
    ensures Picked(a, true) + Picked(b, false) + Picked(c, false) + Picked(d, false) == a
    ensures Picked(a, false) + Picked(b, true) + Picked(c, false) + Picked(d, false) == b
    ensures Picked(a, false) + Picked(b, false) + Picked(c, true) + Picked(d, false) == c
    ensures Picked(a, false) + Picked(b, false) + Picked(c, false) + Picked(d, true) == d
    ensures Picked(a, true) + Picked(b, true) + Picked(c, false) + Picked(d, false) == a + b
    ensures Picked(a, false) + Picked(b, false) + Picked(c, true) + Picked(d, true) == c + d
    ensures Picked(a, true) + Picked(b, false) + Picked(c, true) + Picked(d, false) == a + c
    ensures Picked(a, false) + Picked(b, true) + Picked(c, false) + Picked(d, true) == b + d
  {
  }

  /** `by_language_and_gender` gives exactly the voices of that group, in
      the order of `All`: 11 American female, 9 American male, 4 British
      female and 4 British male voices. */
  lemma ByLanguageAndGenderSpec(l: Language, g: Gender)
    ensures ByLanguageAndGender(l, g) == Group(l, g)
    ensures l == AmericanEnglish && g == Female ==> |ByLanguageAndGender(l, g)| == 11
    ensures l == AmericanEnglish && g == Male ==> |ByLanguageAndGender(l, g)| == 9
    ensures l == BritishEnglish ==> |ByLanguageAndGender(l, g)| == 4
  {
    var af, am, bf, bm := Group(AmericanEnglish, Female), Group(AmericanEnglish, Male), Group(BritishEnglish, Female), Group(BritishEnglish, Male);
    FilterPicks(HasBoth(l, g), l == AmericanEnglish && g == Female, l == AmericanEnglish && g == Male,
      l == BritishEnglish && g == Female, l == BritishEnglish && g == Male);
    PickedTwo(af, am, bf, bm);
    GroupsSpec();
  }

  /** `by_language` gives that language's female voices, then its male
      ones. */
  lemma ByLanguageSpec(l: Language)
    ensures ByLanguage(l) == Group(l, Female) + Group(l, Male)
    ensures |ByLanguage(l)| == if l == AmericanEnglish then 20 else 8
  {
    var af, am, bf, bm := Group(AmericanEnglish, Female), Group(AmericanEnglish, Male), Group(BritishEnglish, Female), Group(BritishEnglish, Male);
    PickedTwo(af, am, bf, bm);
    GroupsSpec();
    if l == AmericanEnglish {
      FilterPicks(HasLanguage(l), true, true, false, false);
    } else {
      FilterPicks(HasLanguage(l), false, false, true, true);
    }
  }

  /** `by_gender` gives that gender's American voices, then its British
      ones. */
  lemma ByGenderSpec(g: Gender)
    ensures ByGender(g) == Group(AmericanEnglish, g) + Group(BritishEnglish, g)
    ensures |ByGender(g)| == if g == Female then 15 else 13
  {
    var af, am, bf, bm := Group(AmericanEnglish, Female), Group(AmericanEnglish, Male), Group(BritishEnglish, Female), Group(BritishEnglish, Male);
    PickedTwo(af, am, bf, bm);
    GroupsSpec();
    if g == Female {
      FilterPicks(HasGender(g), true, false, true, false);
    } else {
      FilterPicks(HasGender(g), false, true, false, true);
    }
  }

  /** The server's default voice id names the British female voice Lily. */
  lemma DefaultVoice()
    ensures FromId("bf_lily") == Some(BritishFemaleLily)
    ensures Config(BritishFemaleLily).name == "Lily"
    ensures Config(BritishFemaleLily).language == BritishEnglish && Config(BritishFemaleLily).gender == Female
  {
    IdNames(BritishFemaleLily);
  }
}
