/**
 * The per-file problems the reference-file checker of csv_checker.py reports, kept structured
 * (kind, line or row number, offending text) and rendered to the checker's French messages
 * by `Message`.
 */
module Diagnostics {
  import opened Strings

  datatype Problem =
    // Raised by the line reader; `line` is the 1-based line number in the file as read.
    | FileEmpty
    | InvalidHeader(line: nat, content: string)
    | InvalidLine(line: nat, content: string)
    | MissingColumns(line: nat, content: string)
    | EncodingError
    | ReadFailure(reason: string)
    // Raised by the per-file integrity check.
    | FileNotFound(name: string)
    | ShortHeader
    | NoValidData
    // Raised by the DEPCO.csv rules; `row` counts the validated rows from 1.
    | ShortRow(row: nat)
    | MissingCode(row: nat)
    | DuplicateCode(row: nat, code: string)
    | InvalidCode(row: nat, code: string)
    | NegativeCode(row: nat, code: string)
    | MissingLabel(row: nat, code: string)
  {
    predicate FromReader() {
      FileEmpty? || InvalidHeader? || InvalidLine? || MissingColumns? || EncodingError? || ReadFailure?
    }

    predicate HasLine() {
      InvalidHeader? || InvalidLine? || MissingColumns?
    }

    predicate FromDepcoRules() {
      ShortRow? || MissingCode? || DuplicateCode? || InvalidCode? || NegativeCode? || MissingLabel?
    }
  }

  function AtLine(n: nat, text: string): (m: string)
    ensures StartsWith(m, "Ligne ")
  {
    var m := "Ligne " + NatToString(n) + " : " + text;
    assert m[..6] == "Ligne ";
    m
  }

  /** A text whose first word does not begin with "Li" is not a line message. */
  lemma NotAtLine(head: string, rest: string)
    requires |head| >= 2 && (head[0] != 'L' || head[1] != 'i')
    ensures !StartsWith(head + rest, "Ligne")
  {
    assert (head + rest)[0] == head[0] && (head + rest)[1] == head[1];
  }

  /** Problems that cite a line of the file or a row of DEPCO.csv. */
  predicate CitesLine(p: Problem) {
    p.HasLine() || p.FromDepcoRules()
  }

  /** The number a line-citing problem cites. */
  function CitedNumber(p: Problem): nat
    requires CitesLine(p)
  {
    if p.HasLine() then p.line else p.row
  }

  /** What follows "Ligne <n> : " in the message of a problem that cites a line. */
  function LineDetail(p: Problem): string
    requires CitesLine(p)
  {
    match p
    case InvalidHeader(_, c) => "En-tête invalide, format attendu 'code;libellé' (contenu: '" + c + "')"
    case InvalidLine(_, c) => "Format invalide, attendu 'code;libellé' (contenu: '" + c + "')"
    case MissingColumns(_, c) => "Format invalide, colonnes manquantes (contenu: '" + c + "')"
    case ShortRow(_) => "Format invalide, attendu 'code;libellé'"
    case MissingCode(_) => "Code manquant"
    case DuplicateCode(_, code) => "Code en double : " + code
    case InvalidCode(_, code) => "Code invalide (doit être un nombre) : " + code
    case NegativeCode(_, code) => "Code négatif non autorisé : " + code
    case MissingLabel(_, code) => "Libellé manquant pour le code " + code
  }

  /** The message of a problem that cites no line; none of them begins with "Ligne". */
  function FileMessage(p: Problem): (m: string)
    requires !CitesLine(p)
    ensures !StartsWith(m, "Ligne")
  {
    match p
    case FileEmpty =>
      NotAtLine("Le ", "fichier est vide");
      "Le " + "fichier est vide"
    case EncodingError =>
      NotAtLine("Erreur ", "d'encodage : le fichier n'est pas en UTF-8");
      "Erreur " + "d'encodage : le fichier n'est pas en UTF-8"
    case ReadFailure(reason) =>
      NotAtLine("Erreur ", "lors de la lecture du fichier : " + reason);
      "Erreur " + ("lors de la lecture du fichier : " + reason)
    case FileNotFound(name) =>
      NotAtLine("Fichier ", "introuvable : " + name);
      "Fichier " + ("introuvable : " + name)
    case ShortHeader =>
      NotAtLine("En-tête ", "invalide : format attendu 'code;libellé'");
      "En-tête " + "invalide : format attendu 'code;libellé'"
    case NoValidData =>
      NotAtLine("Aucune ", "donnée valide trouvée dans le fichier");
      "Aucune " + "donnée valide trouvée dans le fichier"
  }

  /** The text the checker puts in a file's problem list for each kind of problem. The
      messages that begin with "Ligne" are exactly those citing a line or a row. */
  function Message(p: Problem): (m: string)
    ensures StartsWith(m, "Ligne") <==> CitesLine(p)
  {
    if CitesLine(p) then AtLine(CitedNumber(p), LineDetail(p)) else FileMessage(p)
  }

  /** A line message cites the problem's own number, right after "Ligne ". */
  lemma MessageCitesNumber(p: Problem)
    requires CitesLine(p)
    ensures StartsWith(Message(p), "Ligne " + NatToString(CitedNumber(p)) + " : ")
  {
    var prefix := "Ligne " + NatToString(CitedNumber(p)) + " : ";
    assert Message(p) == prefix + LineDetail(p);
    assert Message(p)[..|prefix|] == prefix;
  }
}
