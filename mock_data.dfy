/** The dashboard's seed library, and what the model computes from it. */
module MockData {
  import opened Strings
  import opened Library
  import opened Query
  import opened Stats
  import opened CsvExport

  const OnePiece := Manga(1, "One Piece", Reading, 875, 1100, 5, "Shonen", "#8B5CF6")
  const AttackOnTitan := Manga(2, "Attack on Titan", Completed, 139, 139, 5, "Seinen", "#000000")
  const MyHeroAcademia := Manga(3, "My Hero Academia", Reading, 320, 410, 4, "Shonen", "#22C55E")
  const JujutsuKaisen := Manga(4, "Jujutsu Kaisen", Reading, 245, 250, 5, "Shonen", "#EF4444")
  const ChainsawMan := Manga(5, "Chainsaw Man", Completed, 97, 97, 5, "Shonen", "#F59E0B")
  const DemonSlayer := Manga(6, "Demon Slayer", Completed, 205, 205, 4, "Shonen", "#06B6D4")
  const Berserk := Manga(7, "Berserk", PlanToRead, 0, 374, 0, "Seinen", "#64748B")
  const Vagabond := Manga(8, "Vagabond", PlanToRead, 0, 327, 0, "Seinen", "#A855F7")

  const Seed: seq<Manga> :=
    [OnePiece, AttackOnTitan, MyHeroAcademia, JujutsuKaisen, ChainsawMan, DemonSlayer, Berserk, Vagabond]

  /** A text lacking one character of the needle cannot include the needle. */
  lemma MissingChar(hay: string, needle: string, c: char)
    requires c in needle && c !in hay
    ensures !Contains(hay, needle)
  {
    if Contains(hay, needle) {
      var j :| 0 <= j < |needle| && needle[j] == c;
      ContainsChars(hay, needle, j);
    }
  }

  /** A seed title lacking the letter c of "attack" does not match that search. */
  lemma TitleLacks(m: Manga, c: char)
    requires c in "attack" && c !in Lower(m.title)
    ensures !Keep(m, "attack", All)
  {
    assert Lower("attack") == "attack";
    MissingChar(Lower(m.title), "attack", c);
  }

  /** Attack on Titan's lower-cased title starts with "attack". */
  lemma AttackOnTitanMatches()
    ensures Keep(Seed[1], "attack", All)
  {
    var t := Lower(AttackOnTitan.title);
    assert t[0..6] == "attack";
    assert Lower("attack") == "attack";
    assert OccursAt(t, Lower("attack"), 0);
  }

  /** Every other seed title lacks one letter of "attack" once lower-cased. */
  lemma OthersMiss(j: int)
    requires 0 <= j < |Seed| && j != 1
    ensures !Keep(Seed[j], "attack", All)
  {
    if j == 0 {
      assert 'a' !in Lower(OnePiece.title);
      TitleLacks(OnePiece, 'a');
    } else if j == 2 {
      assert 't' !in Lower(MyHeroAcademia.title);
      TitleLacks(MyHeroAcademia, 't');
    } else if j == 3 {
      assert 'c' !in Lower(JujutsuKaisen.title);
      TitleLacks(JujutsuKaisen, 'c');
    } else if j == 4 {
      assert 't' !in Lower(ChainsawMan.title);
      TitleLacks(ChainsawMan, 't');
    } else if j == 5 {
      assert 't' !in Lower(DemonSlayer.title);
      TitleLacks(DemonSlayer, 't');
    } else if j == 6 {
      assert 'a' !in Lower(Berserk.title);
      TitleLacks(Berserk, 'a');
    } else {
      assert 't' !in Lower(Vagabond.title);
      TitleLacks(Vagabond, 't');
    }
  }

  /** Of the seed entries, the search for "attack" passes Attack on Titan only. */
  lemma SearchAttackEach()
    ensures forall j :: 0 <= j < |Seed| ==> (Keep(Seed[j], "attack", All) <==> j == 1)
  {
    AttackOnTitanMatches();
    forall j | 0 <= j < |Seed| && j != 1 ensures !Keep(Seed[j], "attack", All) {
      OthersMiss(j);
    }
  }

  /** Searching the seed library for "attack" shows Attack on Titan alone. */
  lemma SearchAttack()
    ensures FilterManga(Seed, "attack", All) == [AttackOnTitan]
  {
    SearchAttackEach();
    FilterSingleMatch(Seed, "attack", All, 1);
  }

  /** The seed library holds three reading, three completed, two planned and
      no dropped entries. */
  lemma SeedCounts()
    ensures CountStatus(Seed, Reading) == 3 && CountStatus(Seed, Completed) == 3
    ensures CountStatus(Seed, PlanToRead) == 2 && CountStatus(Seed, Dropped) == 0
  {
    var s := Seed;
    assert s[7..][1..] == [];
    assert CountStatus(s[7..], Reading) == 0 && CountStatus(s[7..], Completed) == 0 && CountStatus(s[7..], PlanToRead) == 1 && CountStatus(s[7..], Dropped) == 0;
    assert s[6..][1..] == s[7..];
    assert CountStatus(s[6..], Reading) == 0 && CountStatus(s[6..], Completed) == 0 && CountStatus(s[6..], PlanToRead) == 2 && CountStatus(s[6..], Dropped) == 0;
    assert s[5..][1..] == s[6..];
    assert CountStatus(s[5..], Reading) == 0 && CountStatus(s[5..], Completed) == 1 && CountStatus(s[5..], PlanToRead) == 2 && CountStatus(s[5..], Dropped) == 0;
    assert s[4..][1..] == s[5..];
    assert CountStatus(s[4..], Reading) == 0 && CountStatus(s[4..], Completed) == 2 && CountStatus(s[4..], PlanToRead) == 2 && CountStatus(s[4..], Dropped) == 0;
    assert s[3..][1..] == s[4..];
    assert CountStatus(s[3..], Reading) == 1 && CountStatus(s[3..], Completed) == 2 && CountStatus(s[3..], PlanToRead) == 2 && CountStatus(s[3..], Dropped) == 0;
    assert s[2..][1..] == s[3..];
    assert CountStatus(s[2..], Reading) == 2 && CountStatus(s[2..], Completed) == 2 && CountStatus(s[2..], PlanToRead) == 2 && CountStatus(s[2..], Dropped) == 0;
    assert s[1..][1..] == s[2..];
    assert CountStatus(s[1..], Reading) == 2 && CountStatus(s[1..], Completed) == 3 && CountStatus(s[1..], PlanToRead) == 2 && CountStatus(s[1..], Dropped) == 0;
    assert CountStatus(s, Reading) == 3 && CountStatus(s, Completed) == 3 && CountStatus(s, PlanToRead) == 2 && CountStatus(s, Dropped) == 0;
  }

  /** The chapters read over the seed library add up to 1881. */
  lemma SeedChapters()
    ensures SumChapters(Seed) == 1881
  {
    var s := Seed;
    assert s[..1][..0] == [];
    assert SumChapters(s[..1]) == 875;
    assert s[..2][..1] == s[..1];
    assert SumChapters(s[..2]) == 1014;
    assert s[..3][..2] == s[..2];
    assert SumChapters(s[..3]) == 1334;
    assert s[..4][..3] == s[..3];
    assert SumChapters(s[..4]) == 1579;
    assert s[..5][..4] == s[..4];
    assert SumChapters(s[..5]) == 1676;
    assert s[..6][..5] == s[..5];
    assert SumChapters(s[..6]) == 1881;
    assert s[..7][..6] == s[..6];
    assert SumChapters(s[..7]) == 1881;
    assert SumChapters(s) == 1881;
  }

  /** The rated seed entries are the first six: Berserk and Vagabond are unrated. */
  lemma SeedRated()
    ensures Rated(Seed) == Seed[..6]
  {
    var head, tail := Seed[..6], Seed[6..];
    assert Seed == head + tail;
    RatedAppend(head, tail);
    assert head == [OnePiece, AttackOnTitan, MyHeroAcademia, JujutsuKaisen, ChainsawMan, DemonSlayer];
    RatedAll(head);
    assert tail == [Berserk, Vagabond];
    RatedEmptyIffNoneRated(tail);
  }

  /** The six rated seed entries hold 28 rating points in all. */
  lemma SeedRatingSum()
    ensures RatingSum(Seed[..6]) == 28
  {
    var r := Seed[..6];
    assert r[..1][..0] == [];
    assert RatingSum(r[..1]) == 5;
    assert r[..2][..1] == r[..1];
    assert RatingSum(r[..2]) == 10;
    assert r[..3][..2] == r[..2];
    assert RatingSum(r[..3]) == 14;
    assert r[..4][..3] == r[..3];
    assert RatingSum(r[..4]) == 19;
    assert r[..5][..4] == r[..4];
    assert RatingSum(r[..5]) == 24;
    assert RatingSum(r) == 28;
  }

  /** 28 rating points over six entries print as "4.7". */
  lemma SeedAverage()
    ensures AverageRatingText(Seed) == "4.7"
  {
    SeedRated();
    SeedRatingSum();
    assert |Seed[..6]| == 6;
    SeedMeanText();
  }

  /** `toFixed(1)` of 28 / 6, about 4.67, is "4.7". */
  lemma SeedMeanText()
    ensures Fixed1(28, 6) == "4.7"
  {
    assert RoundTenths(28, 6) == 47;
    assert NatToString(4) == "4";
  }

  /** The summary the dashboard shows for the seed library. */
  lemma SeedSummary()
    ensures Summarize(Seed) == Summary(8, 3, 3, 2, 1881, "4.7")
  {
    SeedCounts();
    SeedChapters();
    SeedAverage();
  }

  /** `toFixed(1)` of 87500 / 1100, about 79.55, is "79.5". */
  lemma OnePieceProgress()
    ensures ProgressCell(OnePiece) == "79.5"
  {
    assert RoundTenths(87500, 1100) == 795;
    assert NatToString(7) == "7";
    assert NatToString(79) == "79";
  }

  /** One Piece's chapter counts and rating print as plain decimals. */
  lemma OnePieceNumbers()
    ensures IntToString(875) == "875" && IntToString(1100) == "1100"
    ensures RatingCell(OnePiece) == "5"
  {
    assert NatToString(87) == "87" by {
      assert NatToString(8) == "8";
    }
    assert NatToString(110) == "110" by {
      assert NatToString(11) == "11" by {
        assert NatToString(1) == "1";
      }
    }
  }

  /** One Piece exports as the row below, and reads back as its seven cells. */
  lemma OnePieceRow()
    ensures RowCells(OnePiece) == ["One Piece", "reading", "875", "1100", "79.5", "5", "Shonen"]
    ensures Split(Row(OnePiece), ',') == RowCells(OnePiece)
  {
    OnePieceNumbers();
    OnePieceProgress();
    assert ',' !in OnePiece.title && ',' !in OnePiece.genre;
    RowSplitsIntoCells(OnePiece);
  }
}
