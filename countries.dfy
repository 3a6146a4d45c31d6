/** The catalog of region codes found in the raw life expectancy table
    (`life_expectancy/countries.py`): the `Region` enumeration, whose members
    are iterated in declaration order, and `Region.obtain_countries_list`,
    which keeps the codes of actual countries. */
module Countries {
  import opened Seqs

  /** The members of `Region` (lines 11-66). */
  datatype Region =
    AT | FI | ES | EL | EE | DK | DE | CZ | CY | CH | BG | BE | FX | SK | SI | SE
    | RO | PT | PL | NO | NL | LU | LT | IT | UK | IS | HU | IE | MT | MK | LI | FR
    | RS | HR | LV | UA | TR | ME | AL | AZ | GE | BY | AM | MD | SM | RU | XK
    | EFTA | EA18 | EA19 | EU28 | EEA31 | DE_TOT | EU27_2020 | EU27_2007
    | EEA30_2007

  /** `item.name`: the identifier a member is declared under. */
  function Name(r: Region): string {
    match r
    case AT => "AT"
    case FI => "FI"
    case ES => "ES"
    case EL => "EL"
    case EE => "EE"
    case DK => "DK"
    case DE => "DE"
    case CZ => "CZ"
    case CY => "CY"
    case CH => "CH"
    case BG => "BG"
    case BE => "BE"
    case FX => "FX"
    case SK => "SK"
    case SI => "SI"
    case SE => "SE"
    case RO => "RO"
    case PT => "PT"
    case PL => "PL"
    case NO => "NO"
    case NL => "NL"
    case LU => "LU"
    case LT => "LT"
    case IT => "IT"
    case UK => "UK"
    case IS => "IS"
    case HU => "HU"
    case IE => "IE"
    case MT => "MT"
    case MK => "MK"
    case LI => "LI"
    case FR => "FR"
    case RS => "RS"
    case HR => "HR"
    case LV => "LV"
    case UA => "UA"
    case TR => "TR"
    case ME => "ME"
    case AL => "AL"
    case AZ => "AZ"
    case GE => "GE"
    case BY => "BY"
    case AM => "AM"
    case MD => "MD"
    case SM => "SM"
    case RU => "RU"
    case XK => "XK"
    case EFTA => "EFTA"
    case EA18 => "EA18"
    case EA19 => "EA19"
    case EU28 => "EU28"
    case EEA31 => "EEA31"
    case DE_TOT => "DE_TOT"
    case EU27_2020 => "EU27_2020"
    case EU27_2007 => "EU27_2007"
    case EEA30_2007 => "EEA30_2007"
  }

  /** `item.value`: the text a member is declared equal to. */
  function Value(r: Region): string {
    match r
    case AT => "AT"
    case FI => "FI"
    case ES => "ES"
    case EL => "EL"
    case EE => "EE"
    case DK => "DK"
    case DE => "DE"
    case CZ => "CZ"
    case CY => "CY"
    case CH => "CH"
    case BG => "BG"
    case BE => "BE"
    case FX => "FX"
    case SK => "SK"
    case SI => "SI"
    case SE => "SE"
    case RO => "RO"
    case PT => "PT"
    case PL => "PL"
    case NO => "NO"
    case NL => "NL"
    case LU => "LU"
    case LT => "LT"
    case IT => "IT"
    case UK => "UK"
    case IS => "IS"
    case HU => "HU"
    case IE => "IE"
    case MT => "MT"
    case MK => "MK"
    case LI => "LI"
    case FR => "FR"
    case RS => "RS"
    case HR => "HR"
    case LV => "LV"
    case UA => "UA"
    case TR => "TR"
    case ME => "ME"
    case AL => "AL"
    case AZ => "AZ"
    case GE => "GE"
    case BY => "BY"
    case AM => "AM"
    case MD => "MD"
    case SM => "SM"
    case RU => "RU"
    case XK => "XK"
    case EFTA => "EFTA"
    case EA18 => "EA18"
    case EA19 => "EA19"
    case EU28 => "EU28"
    case EEA31 => "EEA31"
    case DE_TOT => "DE_TOT"
    case EU27_2020 => "EU27_2020"
    case EU27_2007 => "EU27_2007"
    case EEA30_2007 => "EEA30_2007"
  }

  /** `Region(s)`: the member whose value is `s`, or `None` where Python
      raises `ValueError`. */
  function FromValue(s: string): Option<Region> {
    match s
    case "AT" => Some(AT)
    case "FI" => Some(FI)
    case "ES" => Some(ES)
    case "EL" => Some(EL)
    case "EE" => Some(EE)
    case "DK" => Some(DK)
    case "DE" => Some(DE)
    case "CZ" => Some(CZ)
    case "CY" => Some(CY)
    case "CH" => Some(CH)
    case "BG" => Some(BG)
    case "BE" => Some(BE)
    case "FX" => Some(FX)
    case "SK" => Some(SK)
    case "SI" => Some(SI)
    case "SE" => Some(SE)
    case "RO" => Some(RO)
    case "PT" => Some(PT)
    case "PL" => Some(PL)
    case "NO" => Some(NO)
    case "NL" => Some(NL)
    case "LU" => Some(LU)
    case "LT" => Some(LT)
    case "IT" => Some(IT)
    case "UK" => Some(UK)
    case "IS" => Some(IS)
    case "HU" => Some(HU)
    case "IE" => Some(IE)
    case "MT" => Some(MT)
    case "MK" => Some(MK)
    case "LI" => Some(LI)
    case "FR" => Some(FR)
    case "RS" => Some(RS)
    case "HR" => Some(HR)
    case "LV" => Some(LV)
    case "UA" => Some(UA)
    case "TR" => Some(TR)
    case "ME" => Some(ME)
    case "AL" => Some(AL)
    case "AZ" => Some(AZ)
    case "GE" => Some(GE)
    case "BY" => Some(BY)
    case "AM" => Some(AM)
    case "MD" => Some(MD)
    case "SM" => Some(SM)
    case "RU" => Some(RU)
    case "XK" => Some(XK)
    case "EFTA" => Some(EFTA)
    case "EA18" => Some(EA18)
    case "EA19" => Some(EA19)
    case "EU28" => Some(EU28)
    case "EEA31" => Some(EEA31)
    case "DE_TOT" => Some(DE_TOT)
    case "EU27_2020" => Some(EU27_2020)
    case "EU27_2007" => Some(EU27_2007)
    case "EEA30_2007" => Some(EEA30_2007)
    case _ => None
  }

  // ---------------------------------------------------------------------
  // Declaration order
  // ---------------------------------------------------------------------

  /** The declaration, a few members at a time. */
  const Row1: seq<Region> := [AT, FI, ES, EL]  // lines 11-14
  const Row2: seq<Region> := [EE, DK, DE, CZ]  // lines 15-18
  const Row3: seq<Region> := [CY, CH, BG, BE]  // lines 19-22
  const Row4: seq<Region> := [FX, SK, SI, SE]  // lines 23-26
  const Row5: seq<Region> := [RO, PT, PL, NO]  // lines 27-30
  const Row6: seq<Region> := [NL, LU, LT, IT]  // lines 31-34
  const Row7: seq<Region> := [UK, IS, HU, IE]  // lines 35-38
  const Row8: seq<Region> := [MT, MK, LI, FR]  // lines 39-42
  const Row9: seq<Region> := [RS, HR, LV, UA]  // lines 43-46
  const Row10: seq<Region> := [TR, ME, AL, AZ]  // lines 47-50
  const Row11: seq<Region> := [GE, BY, AM, MD]  // lines 51-54
  const Row12: seq<Region> := [SM, RU, XK]  // lines 55-57
  const Row13: seq<Region> := [EFTA, EA18, EA19]  // lines 58-60
  const Row14: seq<Region> := [EU28, EEA31, DE_TOT]  // lines 61-63
  const Row15: seq<Region> := [EU27_2020, EU27_2007, EEA30_2007]  // lines 64-66

  /** The members declared on lines 11-57, the countries. */
  const CountryMembers: seq<Region> :=
    Row1 + Row2 + Row3 + Row4 + Row5 + Row6 + Row7 + Row8 + Row9 + Row10 + Row11 + Row12

  /** The members declared on lines 58-66, the aggregates. */
  const AggregateMembers: seq<Region> := Row13 + Row14 + Row15

  /** The members in the order `for item in Region` visits them. */
  const Declared: seq<Region> := CountryMembers + AggregateMembers

  /** The place of a member in the declaration, counting from 0. */
  function Position(r: Region): nat {
    match r
    case AT => 0
    case FI => 1
    case ES => 2
    case EL => 3
    case EE => 4
    case DK => 5
    case DE => 6
    case CZ => 7
    case CY => 8
    case CH => 9
    case BG => 10
    case BE => 11
    case FX => 12
    case SK => 13
    case SI => 14
    case SE => 15
    case RO => 16
    case PT => 17
    case PL => 18
    case NO => 19
    case NL => 20
    case LU => 21
    case LT => 22
    case IT => 23
    case UK => 24
    case IS => 25
    case HU => 26
    case IE => 27
    case MT => 28
    case MK => 29
    case LI => 30
    case FR => 31
    case RS => 32
    case HR => 33
    case LV => 34
    case UA => 35
    case TR => 36
    case ME => 37
    case AL => 38
    case AZ => 39
    case GE => 40
    case BY => 41
    case AM => 42
    case MD => 43
    case SM => 44
    case RU => 45
    case XK => 46
    case EFTA => 47
    case EA18 => 48
    case EA19 => 49
    case EU28 => 50
    case EEA31 => 51
    case DE_TOT => 52
    case EU27_2020 => 53
    case EU27_2007 => 54
    case EEA30_2007 => 55
  }

  /** The member at position `k`, the inverse of `Position`. */
  function AtPosition(k: nat): Region
    requires k < 56
  {
    match k
    case 0 => AT
    case 1 => FI
    case 2 => ES
    case 3 => EL
    case 4 => EE
    case 5 => DK
    case 6 => DE
    case 7 => CZ
    case 8 => CY
    case 9 => CH
    case 10 => BG
    case 11 => BE
    case 12 => FX
    case 13 => SK
    case 14 => SI
    case 15 => SE
    case 16 => RO
    case 17 => PT
    case 18 => PL
    case 19 => NO
    case 20 => NL
    case 21 => LU
    case 22 => LT
    case 23 => IT
    case 24 => UK
    case 25 => IS
    case 26 => HU
    case 27 => IE
    case 28 => MT
    case 29 => MK
    case 30 => LI
    case 31 => FR
    case 32 => RS
    case 33 => HR
    case 34 => LV
    case 35 => UA
    case 36 => TR
    case 37 => ME
    case 38 => AL
    case 39 => AZ
    case 40 => GE
    case 41 => BY
    case 42 => AM
    case 43 => MD
    case 44 => SM
    case 45 => RU
    case 46 => XK
    case 47 => EFTA
    case 48 => EA18
    case 49 => EA19
    case 50 => EU28
    case 51 => EEA31
    case 52 => DE_TOT
    case 53 => EU27_2020
    case 54 => EU27_2007
    case _ => EEA30_2007
  }

  // ---------------------------------------------------------------------
  // obtain_countries_list
  // ---------------------------------------------------------------------

  /** `regions_only`: the codes of aggregates of countries (lines 71-81). */
  const RegionsOnly: seq<string> :=
    ["EFTA", "EA18", "EA19", "EU28", "EEA31", "DE_TOT", "EU27_2020", "EU27_2007", "EEA30_2007"]

  /** Every aggregate code is at least four characters long. */
  lemma AggregateCodesLong()
    ensures forall s :: s in RegionsOnly ==> |s| >= 4
  {
  }

  /** The condition of the comprehension on line 83. */
  predicate IsCountry(r: Region) {
    Value(r) !in RegionsOnly
  }

  /** `Region.obtain_countries_list()` (lines 68-83): the values of the
      members, in declaration order, that are not aggregate codes. */
  function CountriesList(): seq<string> {
    Map(Filter(Declared, IsCountry), Value)
  }

  // ---------------------------------------------------------------------
  // The enumeration
  // ---------------------------------------------------------------------

  /** Every member is declared equal to its own name. */
  lemma ValueIsName(r: Region)
    ensures Value(r) == Name(r)
  {
  }

  /** `Region(item.value) is item`: looking a member's value up finds it. */
  lemma FromValueOfValue(r: Region)
    ensures FromValue(Value(r)) == Some(r)
  {
    var k := Position(r);
    if k < 16 {
      FromValueOfValue0(r);
    } else if k < 28 {
      FromValueOfValue16(r);
    } else if k < 37 {
      FromValueOfValue28(r);
    } else if k < 45 {
      FromValueOfValue37(r);
    } else if k < 51 {
      FromValueOfValue45(r);
    } else {
      FromValueOfValue51(r);
    }
  }

  /** Proof steps only, they state nothing `FromValueOfValue` does not:
      the lookup is checked a few members at a time, in declaration order,
      one case per member, so that each proof stays within the solver's
      budget; the later a member, the more comparisons its lookup makes, so
      the later groups are smaller. */
  lemma FromValueOfValue0(r: Region)
    requires Position(r) < 16
    ensures FromValue(Value(r)) == Some(r)
  {
    match r
    case AT =>
    case FI =>
    case ES =>
    case EL =>
    case EE =>
    case DK =>
    case DE =>
    case CZ =>
    case CY =>
    case CH =>
    case BG =>
    case BE =>
    case FX =>
    case SK =>
    case SI =>
    case SE =>
    case _ =>
  }

  lemma FromValueOfValue16(r: Region)
    requires 16 <= Position(r) < 28
    ensures FromValue(Value(r)) == Some(r)
  {
    match r
    case RO =>
    case PT =>
    case PL =>
    case NO =>
    case NL =>
    case LU =>
    case LT =>
    case IT =>
    case UK =>
    case IS =>
    case HU =>
    case IE =>
    case _ =>
  }

  lemma FromValueOfValue28(r: Region)
    requires 28 <= Position(r) < 37
    ensures FromValue(Value(r)) == Some(r)
  {
    match r
    case MT =>
    case MK =>
    case LI =>
    case FR =>
    case RS =>
    case HR =>
    case LV =>
    case UA =>
    case TR =>
    case _ =>
  }

  lemma FromValueOfValue37(r: Region)
    requires 37 <= Position(r) < 45
    ensures FromValue(Value(r)) == Some(r)
  {
    match r
    case ME =>
    case AL =>
    case AZ =>
    case GE =>
    case BY =>
    case AM =>
    case MD =>
    case SM =>
    case _ =>
  }

  lemma FromValueOfValue45(r: Region)
    requires 45 <= Position(r) < 51
    ensures FromValue(Value(r)) == Some(r)
  {
    match r
    case RU =>
    case XK =>
    case EFTA =>
    case EA18 =>
    case EA19 =>
    case EU28 =>
    case _ =>
  }

  lemma FromValueOfValue51(r: Region)
    requires 51 <= Position(r)
    ensures FromValue(Value(r)) == Some(r)
  {
    match r
    case EEA31 =>
    case DE_TOT =>
    case EU27_2020 =>
    case EU27_2007 =>
    case EEA30_2007 =>
    case _ =>
  }

  /** A successful lookup finds a member with the text looked up. */
  lemma ValueOfFromValue(s: string)
    requires FromValue(s).Some?
    ensures Value(FromValue(s).value) == s
  {
    if |s| != 2 {
      ValueOfFromLongValue(s);
    } else if s[0] < 'F' {
      ValueOfFromShortValue(s, 'A', 'F');
    } else if s[0] < 'L' {
      ValueOfFromShortValue(s, 'F', 'L');
    } else if s[0] < 'R' {
      ValueOfFromShortValue(s, 'L', 'R');
    } else {
      ValueOfFromShortValue(s, 'R', 'Z');
    }
  }

  /** Proof steps only, for `ValueOfFromValue`: the texts looked up are
      split by length and, for two letters, by their first letter, so that
      each proof stays within the solver's budget. */
  lemma ValueOfFromLongValue(s: string)
    requires FromValue(s).Some? && |s| != 2
    ensures Value(FromValue(s).value) == s
  {
  }

  lemma ValueOfFromShortValue(s: string, lo: char, hi: char)
    requires (lo, hi) in {('A', 'F'), ('F', 'L'), ('L', 'R'), ('R', 'Z')}
    requires FromValue(s).Some? && |s| == 2 && (s[0] < hi || hi == 'Z') && (lo == 'A' || lo <= s[0])
    ensures Value(FromValue(s).value) == s
  {
  }

  /** No two members share a value, so none is an alias of another. */
  lemma ValuesDistinct(r1: Region, r2: Region)
    requires Value(r1) == Value(r2)
    ensures r1 == r2
  {
    FromValueOfValue(r1);
    FromValueOfValue(r2);
  }

  /** Every member of `s` stands at its own position, counting from `lo`. */
  predicate PlacedFrom(s: seq<Region>, lo: nat) {
    forall i :: 0 <= i < |s| ==> Position(s[i]) == lo + i
  }

  /** Two consecutive runs of members at their own positions form one. */
  lemma PlacedAppend(a: seq<Region>, b: seq<Region>, lo: nat)
    requires PlacedFrom(a, lo) && PlacedFrom(b, lo + |a|)
    ensures PlacedFrom(a + b, lo)
  {
    forall i | 0 <= i < |a + b|
      ensures Position((a + b)[i]) == lo + i
    {
      if i >= |a| {
        assert (a + b)[i] == b[i - |a|];
      }
    }
  }

  /** Each row of the declaration stands at its own positions. Proof steps
      only, for `CountriesPlaced` and `DeclaredOnce`: one lemma per row, so
      that each proof stays within the solver's budget. */
  lemma Row1Facts()
    ensures PlacedFrom(Row1, 0)
  {
  }

  lemma Row2Facts()
    ensures PlacedFrom(Row2, 4)
  {
  }

  lemma Row3Facts()
    ensures PlacedFrom(Row3, 8)
  {
  }

  lemma Row4Facts()
    ensures PlacedFrom(Row4, 12)
  {
  }

  lemma Row5Facts()
    ensures PlacedFrom(Row5, 16)
  {
  }

  lemma Row6Facts()
    ensures PlacedFrom(Row6, 20)
  {
  }

  lemma Row7Facts()
    ensures PlacedFrom(Row7, 24)
  {
  }

  lemma Row8Facts()
    ensures PlacedFrom(Row8, 28)
  {
  }

  lemma Row9Facts()
    ensures PlacedFrom(Row9, 32)
  {
  }

  lemma Row10Facts()
    ensures PlacedFrom(Row10, 36)
  {
  }

  lemma Row11Facts()
    ensures PlacedFrom(Row11, 40)
  {
  }

  lemma Row12Facts()
    ensures PlacedFrom(Row12, 44)
  {
  }

  lemma Row13Facts()
    ensures PlacedFrom(Row13, 47)
  {
  }

  lemma Row14Facts()
    ensures PlacedFrom(Row14, 50)
  {
  }

  lemma Row15Facts()
    ensures PlacedFrom(Row15, 53)
  {
  }

  /** The countries stand at positions 0 to 46. */
  lemma CountriesPlaced()
    ensures PlacedFrom(CountryMembers, 0)
  {
    Row1Facts(); Row2Facts(); Row3Facts(); Row4Facts(); Row5Facts(); Row6Facts();
    Row7Facts(); Row8Facts(); Row9Facts(); Row10Facts(); Row11Facts(); Row12Facts();
    PlacedAppend(Row1, Row2, 0);
    PlacedAppend(Row1 + Row2, Row3, 0);
    PlacedAppend(Row1 + Row2 + Row3, Row4, 0);
    PlacedAppend(Row1 + Row2 + Row3 + Row4, Row5, 0);
    PlacedAppend(Row1 + Row2 + Row3 + Row4 + Row5, Row6, 0);
    PlacedAppend(Row1 + Row2 + Row3 + Row4 + Row5 + Row6, Row7, 0);
    PlacedAppend(Row1 + Row2 + Row3 + Row4 + Row5 + Row6 + Row7, Row8, 0);
    PlacedAppend(Row1 + Row2 + Row3 + Row4 + Row5 + Row6 + Row7 + Row8, Row9, 0);
    PlacedAppend(Row1 + Row2 + Row3 + Row4 + Row5 + Row6 + Row7 + Row8 + Row9, Row10, 0);
    PlacedAppend(Row1 + Row2 + Row3 + Row4 + Row5 + Row6 + Row7 + Row8 + Row9 + Row10, Row11, 0);
    PlacedAppend(Row1 + Row2 + Row3 + Row4 + Row5 + Row6 + Row7 + Row8 + Row9 + Row10 + Row11, Row12, 0);
  }

  /** The declaration lists 56 members, each exactly once, so iterating
      the enumeration visits every member once. */
  lemma DeclaredOnce()
    ensures |Declared| == 56
    ensures forall i :: 0 <= i < |Declared| ==> Position(Declared[i]) == i
    ensures Distinct(Declared)
  {
    CountriesPlaced();
    Row13Facts();
    Row14Facts();
    Row15Facts();
    PlacedAppend(Row13, Row14, 47);
    PlacedAppend(Row13 + Row14, Row15, 47);
    PlacedAppend(CountryMembers, AggregateMembers, 0);
  }

  /** Positions tell members apart. */
  lemma AtPositionOfPosition(r: Region)
    ensures Position(r) < 56 && AtPosition(Position(r)) == r
  {
    match r
    case AT =>
    case FI =>
    case ES =>
    case EL =>
    case EE =>
    case DK =>
    case DE =>
    case CZ =>
    case CY =>
    case CH =>
    case BG =>
    case BE =>
    case FX =>
    case SK =>
    case SI =>
    case SE =>
    case RO =>
    case PT =>
    case PL =>
    case NO =>
    case NL =>
    case LU =>
    case LT =>
    case IT =>
    case UK =>
    case IS =>
    case HU =>
    case IE =>
    case MT =>
    case MK =>
    case LI =>
    case FR =>
    case RS =>
    case HR =>
    case LV =>
    case UA =>
    case TR =>
    case ME =>
    case AL =>
    case AZ =>
    case GE =>
    case BY =>
    case AM =>
    case MD =>
    case SM =>
    case RU =>
    case XK =>
    case EFTA =>
    case EA18 =>
    case EA19 =>
    case EU28 =>
    case EEA31 =>
    case DE_TOT =>
    case EU27_2020 =>
    case EU27_2007 =>
    case EEA30_2007 =>
  }

  /** Every member is in the declaration, at its position. */
  lemma PositionDeclared(r: Region)
    ensures Position(r) < |Declared| && Declared[Position(r)] == r
  {
    DeclaredOnce();
    var k := Position(r);
    AtPositionOfPosition(r);
    AtPositionOfPosition(Declared[k]);
  }

  /** The 56 values are pairwise distinct. */
  lemma DeclaredValuesDistinct()
    ensures Distinct(Map(Declared, Value))
  {
    DeclaredOnce();
    forall i, j | 0 <= i < |Declared| && 0 <= j < |Declared| && Value(Declared[i]) == Value(Declared[j])
      ensures Declared[i] == Declared[j]
    {
      ValuesDistinct(Declared[i], Declared[j]);
    }
    MapDistinct(Declared, Value);
  }

  // ---------------------------------------------------------------------
  // What obtain_countries_list promises
  // ---------------------------------------------------------------------

  /** A member is kept exactly when it is declared on lines 11-57. */
  lemma CountryPosition(r: Region)
    ensures IsCountry(r) <==> Position(r) < 47
  {
    ShortValuePosition(r);
    AggregateCodesLong();
    if |Value(r)| != 2 {
      LongValueAggregate(r);
    }
  }

  /** Exactly the countries carry two-letter values. */
  lemma ShortValuePosition(r: Region)
    ensures |Value(r)| == 2 <==> Position(r) < 47
  {
  }

  /** Every member with a longer value is one of the aggregates. */
  lemma LongValueAggregate(r: Region)
    requires |Value(r)| != 2
    ensures Value(r) in RegionsOnly
  {
  }

  /** The members the comprehension keeps are those declared on lines
      11-57, so the list is their 47 values, in declaration order. */
  lemma CountriesListIs()
    ensures Filter(Declared, IsCountry) == CountryMembers
    ensures CountriesList() == Map(CountryMembers, Value)
    ensures |CountriesList()| == 47
  {
    DeclaredOnce();
    forall i | 0 <= i < |Declared|
      ensures IsCountry(Declared[i]) <==> i < 47
    {
      CountryPosition(Declared[i]);
    }
    assert forall i :: 0 <= i < |CountryMembers| ==> CountryMembers[i] == Declared[i];
    assert forall i :: 0 <= i < |AggregateMembers| ==> AggregateMembers[i] == Declared[47 + i];
    FilterKeepsAll(CountryMembers, IsCountry);
    FilterKeepsNone(AggregateMembers, IsCountry);
    FilterAppend(CountryMembers, AggregateMembers, IsCountry);
  }

  /** No aggregate code is in the list. */
  lemma CountriesListNoAggregate()
    ensures forall i :: 0 <= i < |CountriesList()| ==> CountriesList()[i] !in RegionsOnly
  {
  }

  /** Every element of the list is the value of a member, and of one that
      is no aggregate. */
  lemma CountriesListMembers()
    ensures forall i :: 0 <= i < |CountriesList()| ==>
      FromValue(CountriesList()[i]).Some? && IsCountry(FromValue(CountriesList()[i]).value)
  {
    var kept := Filter(Declared, IsCountry);
    forall i | 0 <= i < |kept|
      ensures FromValue(Value(kept[i])) == Some(kept[i])
    {
      FromValueOfValue(kept[i]);
    }
  }

  /** A member's value is in the list exactly when the member is not an
      aggregate. */
  lemma CountriesListComplete(r: Region)
    ensures Value(r) in CountriesList() <==> IsCountry(r)
  {
    var kept := Filter(Declared, IsCountry);
    var list := CountriesList();
    if IsCountry(r) {
      PositionDeclared(r);
      var p :| 0 <= p < |kept| && kept[p] == r;
      assert list[p] == Value(r);
    }
    if Value(r) in list {
      var p :| 0 <= p < |list| && list[p] == Value(r);
      ValuesDistinct(kept[p], r);
    }
  }

  /** The kept members follow the declaration order, and the list holds
      their values in that order: of two elements, the one that comes
      first is the value of the member declared first. */
  lemma CountriesListOrder()
    ensures forall i, j :: 0 <= i < j < |Filter(Declared, IsCountry)| ==>
      Position(Filter(Declared, IsCountry)[i]) < Position(Filter(Declared, IsCountry)[j])
    ensures forall i :: 0 <= i < |CountriesList()| ==>
      CountriesList()[i] == Value(Filter(Declared, IsCountry)[i])
  {
    DeclaredOnce();
    var key: Region -> int := r => Position(r);
    forall i, j | 0 <= i < j < |Declared|
      ensures key(Declared[i]) < key(Declared[j])
    {
      assert key(Declared[i]) == i && key(Declared[j]) == j;
    }
    FilterOrdered(Declared, IsCountry, key);
  }

  /** The list holds no value twice. */
  lemma CountriesListDistinct()
    ensures Distinct(CountriesList())
  {
    DeclaredOnce();
    var kept := Filter(Declared, IsCountry);
    FilterDistinct(Declared, IsCountry);
    forall i, j | 0 <= i < |kept| && 0 <= j < |kept| && Value(kept[i]) == Value(kept[j])
      ensures kept[i] == kept[j]
    {
      ValuesDistinct(kept[i], kept[j]);
    }
    MapDistinct(kept, Value);
  }
}
