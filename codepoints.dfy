/**
 * The Arabic letter groups the rule engine classifies characters by: finite
 * tables of code points collected from the Unicode charts, one per joining
 * shape, and the unions of them that the rules test (src/codepoints.rs; the
 * same tables are repeated at the head of src/arabic.rs). Each table is a
 * membership predicate over the character's code point.
 */
module CodePoints {
  /** The kashida (tatweel) itself, U+0640 ARABIC TATWEEL. */
  const Kashida: char := '\U{0640}'

  /** The Alef group, table ALEFS (28 code points). */
  predicate IsAlef(c: char) {
    var v := c as int;
    v == 0x0622 || v == 0x0623 || v == 0x0625 || v == 0x0627 || v == 0x0671 || v == 0x0672 ||
    v == 0x0673 || v == 0x0773 || v == 0x0774 || v == 0x0870 || v == 0x0871 || v == 0x0872 ||
    v == 0x0873 || v == 0x0874 || v == 0x0875 || v == 0x0876 || v == 0x0877 || v == 0x0878 ||
    v == 0x0879 || v == 0x087A || v == 0x087B || v == 0x087C || v == 0x087D || v == 0x087E ||
    v == 0x087F || v == 0x0880 || v == 0x0881 || v == 0x0882
  }

  /** The Beh group, table BEHS (27 code points). */
  predicate IsBeh(c: char) {
    var v := c as int;
    v == 0x0628 || v == 0x062A || v == 0x062B || v == 0x066E || v == 0x0679 || v == 0x067A ||
    v == 0x067B || v == 0x067C || v == 0x067D || v == 0x067E || v == 0x067F || v == 0x0680 ||
    v == 0x0750 || v == 0x0751 || v == 0x0752 || v == 0x0753 || v == 0x0754 || v == 0x0755 ||
    v == 0x0756 || v == 0x08A0 || v == 0x08A1 || v == 0x08B6 || v == 0x08B7 || v == 0x08B8 ||
    v == 0x08BE || v == 0x08BF || v == 0x08C0
  }

  /** The Jeem (Hah, Khah) group, table JEEMS (22 code points). */
  predicate IsJeem(c: char) {
    var v := c as int;
    v == 0x062C || v == 0x062D || v == 0x062E || v == 0x0681 || v == 0x0682 || v == 0x0683 ||
    v == 0x0684 || v == 0x0685 || v == 0x0686 || v == 0x0687 || v == 0x06BF || v == 0x0757 ||
    v == 0x0758 || v == 0x076E || v == 0x076F || v == 0x0772 || v == 0x077C || v == 0x08A2 ||
    v == 0x08C1 || v == 0x08C5 || v == 0x08C6 || v == 0x088A
  }

  /** The Dal group, table DALS (15 code points). */
  predicate IsDal(c: char) {
    var v := c as int;
    v == 0x062F || v == 0x0630 || v == 0x0688 || v == 0x0689 || v == 0x068A || v == 0x068B ||
    v == 0x068C || v == 0x068D || v == 0x068E || v == 0x068F || v == 0x0690 || v == 0x06EE ||
    v == 0x0759 || v == 0x075A || v == 0x08AE
  }

  /** The Reh group, table REHS (19 code points). */
  predicate IsReh(c: char) {
    var v := c as int;
    v == 0x0631 || v == 0x0632 || v == 0x0691 || v == 0x0692 || v == 0x0693 || v == 0x0694 ||
    v == 0x0695 || v == 0x0696 || v == 0x0697 || v == 0x0698 || v == 0x0699 || v == 0x06EF ||
    v == 0x075B || v == 0x076B || v == 0x076C || v == 0x0771 || v == 0x08AA || v == 0x08B2 ||
    v == 0x08B9
  }

  /** The Seen group, table SEENS (11 code points). */
  predicate IsSeen(c: char) {
    var v := c as int;
    v == 0x0633 || v == 0x0634 || v == 0x069A || v == 0x069B || v == 0x069C || v == 0x06FA ||
    v == 0x075C || v == 0x076D || v == 0x0770 || v == 0x077D || v == 0x077E
  }

  /** The Sad group, table SADS (6 code points). */
  predicate IsSad(c: char) {
    var v := c as int;
    v == 0x0635 || v == 0x0636 || v == 0x069D || v == 0x069E || v == 0x06FB || v == 0x08AF
  }

  /** The Tah group, table TAHS (6 code points). */
  predicate IsTah(c: char) {
    var v := c as int;
    v == 0x0637 || v == 0x0638 || v == 0x069F || v == 0x08A3 || v == 0x088B || v == 0x088C
  }

  /** The Ain group, table AINS (9 code points). */
  predicate IsAin(c: char) {
    var v := c as int;
    v == 0x0639 || v == 0x063A || v == 0x06A0 || v == 0x06FC || v == 0x075D || v == 0x075E ||
    v == 0x075F || v == 0x08B3 || v == 0x08C3
  }

  /** The Feh group, table FEHS (11 code points). */
  predicate IsFeh(c: char) {
    var v := c as int;
    v == 0x0641 || v == 0x06A1 || v == 0x06A2 || v == 0x06A3 || v == 0x06A4 || v == 0x06A5 ||
    v == 0x06A6 || v == 0x0760 || v == 0x0761 || v == 0x08A4 || v == 0x08BB
  }

  /** The Qaf group, table QAFS (8 code points). */
  predicate IsQaf(c: char) {
    var v := c as int;
    v == 0x0642 || v == 0x066F || v == 0x06A7 || v == 0x06A8 || v == 0x08A5 || v == 0x08B5 ||
    v == 0x08BC || v == 0x08C4
  }

  /** The Kaf group, table KAFS (24 code points). */
  predicate IsKaf(c: char) {
    var v := c as int;
    v == 0x063B || v == 0x063C || v == 0x0643 || v == 0x06A9 || v == 0x06AA || v == 0x06AB ||
    v == 0x06AC || v == 0x06AD || v == 0x06AE || v == 0x06AF || v == 0x06B0 || v == 0x06B1 ||
    v == 0x06B2 || v == 0x06B3 || v == 0x06B4 || v == 0x0762 || v == 0x0763 || v == 0x0764 ||
    v == 0x077F || v == 0x08B0 || v == 0x08B4 || v == 0x08C2 || v == 0x08C8 || v == 0x088D
  }

  /** The Lam group, table LAMS (8 code points). */
  predicate IsLam(c: char) {
    var v := c as int;
    v == 0x0644 || v == 0x06B5 || v == 0x06B6 || v == 0x06B7 || v == 0x06B8 || v == 0x076A ||
    v == 0x08A6 || v == 0x08C7
  }

  /** The Meem group, table MEEMS (4 code points). */
  predicate IsMeem(c: char) {
    var v := c as int;
    v == 0x0645 || v == 0x0765 || v == 0x0766 || v == 0x08A7
  }

  /** The Noon group, table NOONS (10 code points). */
  predicate IsNoon(c: char) {
    var v := c as int;
    v == 0x0646 || v == 0x06BA || v == 0x06BB || v == 0x06BC || v == 0x06BD || v == 0x0767 ||
    v == 0x0768 || v == 0x0769 || v == 0x08BD || v == 0x0889
  }

  /** The Heh group, table HEHS (4 code points). */
  predicate IsHeh(c: char) {
    var v := c as int;
    v == 0x0647 || v == 0x06BE || v == 0x06C0 || v == 0x06FF
  }

  /** The Teh Marbuta group, table TEH_MARBOUTA (4 code points). */
  predicate IsTehMarbouta(c: char) {
    var v := c as int;
    v == 0x0629 || v == 0x06C1 || v == 0x06C2 || v == 0x06C3
  }

  /** The Waw group, table WAWS (15 code points). */
  predicate IsWaw(c: char) {
    var v := c as int;
    v == 0x0624 || v == 0x0648 || v == 0x06C4 || v == 0x06C5 || v == 0x06C6 || v == 0x06C7 ||
    v == 0x06C8 || v == 0x06C9 || v == 0x06CA || v == 0x06CB || v == 0x06CF || v == 0x0778 ||
    v == 0x0779 || v == 0x08AB || v == 0x08B1
  }

  /** The Yeh group, table YEHS (23 code points). */
  predicate IsYeh(c: char) {
    var v := c as int;
    v == 0x0626 || v == 0x0620 || v == 0x063D || v == 0x063E || v == 0x063F || v == 0x0649 ||
    v == 0x064A || v == 0x06CC || v == 0x06CD || v == 0x06CE || v == 0x06D0 || v == 0x06D1 ||
    v == 0x06D2 || v == 0x06D3 || v == 0x0775 || v == 0x0776 || v == 0x0777 || v == 0x077A ||
    v == 0x077B || v == 0x08A8 || v == 0x08A9 || v == 0x08AC || v == 0x08BA
  }

  /** TEETH: letters with a tooth, the Beh, Noon and Yeh groups. */
  predicate IsTooth(c: char) {
    IsBeh(c) || IsNoon(c) || IsYeh(c)
  }

  /**
   * CONNECTORS_EXCEPT_LAMS: letters that join the following letter, Lams
   * excepted. The source concatenates the Noon table twice; for membership
   * that changes nothing.
   */
  predicate IsConnectorExceptLam(c: char) {
    IsTooth(c) || IsJeem(c) || IsSeen(c) || IsSad(c) || IsTah(c) || IsAin(c) ||
    IsFeh(c) || IsQaf(c) || IsKaf(c) || IsMeem(c) || IsNoon(c) || IsHeh(c)
  }

  /** ALL_CONNECTORS: every letter that joins the following letter. */
  predicate IsConnector(c: char) {
    IsConnectorExceptLam(c) || IsLam(c)
  }

  /**
   * The groups of the commented-out NON_CONNECTORS table: letters that join
   * only the preceding letter.
   */
  predicate IsNonConnector(c: char) {
    IsAlef(c) || IsReh(c) || IsDal(c) || IsTehMarbouta(c) || IsWaw(c)
  }

  /** Some char of `chars` satisfies `p` (Rust's `g.contains(p)`). */
  predicate Has(chars: seq<char>, p: char -> bool) {
    chars != [] && (p(chars[0]) || Has(chars[1..], p))
  }

  /** Every char of `chars` satisfies `p` (Rust's `g.chars().all(p)`). */
  predicate Every(chars: seq<char>, p: char -> bool) {
    chars == [] || (p(chars[0]) && Every(chars[1..], p))
  }

  /** `Has` is the existential it names. */
  lemma {:induction false} HasSome(chars: seq<char>, p: char -> bool)
    ensures Has(chars, p) <==> exists c :: c in chars && p(c)
  {
    if chars != [] {
      HasSome(chars[1..], p);
      assert forall c :: c in chars <==> c == chars[0] || c in chars[1..];
    }
  }

  /** `Every` is the universal it names. */
  lemma {:induction false} EverySome(chars: seq<char>, p: char -> bool)
    ensures Every(chars, p) <==> forall c :: c in chars ==> p(c)
  {
    if chars != [] {
      EverySome(chars[1..], p);
      assert forall c :: c in chars <==> c == chars[0] || c in chars[1..];
    }
  }

  /** The Lam group and the other connectors share no code point, as the name promises. */
  lemma LamsAreNotOtherConnectors(c: char)
    ensures IsConnector(c) ==> (IsLam(c) <==> !IsConnectorExceptLam(c))
  {
  }

  /** No letter that joins only its predecessor is counted as a connector. */
  lemma NonConnectorsDoNotConnect(c: char)
    ensures IsNonConnector(c) ==> !IsConnector(c)
  {
    AlefDoesNotConnect(c);
    RehDoesNotConnect(c);
    DalDoesNotConnect(c);
    TehMarboutaDoesNotConnect(c);
    WawDoesNotConnect(c);
  }

  lemma AlefDoesNotConnect(c: char)
    ensures IsAlef(c) ==> !IsConnector(c)
  {
    if IsAlef(c) {
      assert !IsTooth(c) && !IsJeem(c) && !IsSeen(c) && !IsSad(c);
      assert !IsTah(c) && !IsAin(c) && !IsFeh(c) && !IsQaf(c);
      assert !IsKaf(c) && !IsMeem(c) && !IsNoon(c) && !IsHeh(c) && !IsLam(c);
    }
  }

  lemma RehDoesNotConnect(c: char)
    ensures IsReh(c) ==> !IsConnector(c)
  {
  }

  lemma DalDoesNotConnect(c: char)
    ensures IsDal(c) ==> !IsConnector(c)
  {
  }

  lemma TehMarboutaDoesNotConnect(c: char)
    ensures IsTehMarbouta(c) ==> !IsConnector(c)
  {
  }

  lemma WawDoesNotConnect(c: char)
    ensures IsWaw(c) ==> !IsConnector(c)
  {
  }

  /** Every tooth letter connects, and a Lam is never a tooth. */
  lemma TeethConnect(c: char)
    ensures IsTooth(c) ==> IsConnectorExceptLam(c) && !IsLam(c)
  {
  }

  /** The kashida belongs to no letter group. */
  lemma KashidaIsNoLetter()
    ensures !IsConnector(Kashida) && !IsNonConnector(Kashida)
  {
  }
}
